/** The mutation resolvers of the GraphQL schema, applied to an in-memory
    store of the three collections, and the document-level `deleteOne` hook
    of the user model. Each resolver is one sequential update of the store;
    every method says what it returns, what it writes and that nothing else
    changes. */
module Schema {
  import opened Common
  import opened UserModel
  import opened TweetModel
  import opened FollowModel

  class Store {
    var users: map<Id, User>
    var tweets: map<Id, Tweet>
    var follows: seq<Follow>

    /** What every reachable store satisfies: the unique indexes hold, no
        like counter is negative (it starts at 0 and only ever gains 1), and
        no retweet counter has moved from its default. */
    ghost predicate Valid()
      reads this
    {
      && UniqueKeys(users)
      && forall t :: t in tweets ==> tweets[t].likes >= 0 && tweets[t].retweets == 0
    }

    /** An empty database. */
    constructor ()
      ensures Valid()
      ensures users == map[] && tweets == map[] && follows == []
    {
      users, tweets, follows := map[], map[], [];
    }

    /** addUser: `new User({...}).save()` under the fresh id `id`. Validation
        comes first, then the unique indexes; on any failure nothing is
        stored. */
    method AddUser(id: Id, username: string, email: string, password: string,
                   bio: Option<string>, profilePicture: Option<string>) returns (r: Result<User>)
      requires Valid()
      requires id !in users
      modifies this
      ensures Valid()
      ensures tweets == old(tweets) && follows == old(follows)
      ensures r.Ok? <==> && username != "" && email != "" && password != ""
                         && !UsernameTaken(old(users), username, id)
                         && !EmailTaken(old(users), email, id)
      ensures r.Ok? ==> r.value == User(username, email, password, bio, profilePicture)
      ensures r.Ok? ==> users == old(users)[id := r.value]
      ensures r.Err? ==> users == old(users)
      ensures r.Err? ==> (r.error == DuplicateKey <==> username != "" && email != "" && password != "")
    {
      r := ValidateUser(UserDoc(Some(username), Some(email), Some(password), bio, profilePicture));
      if r.Err? {
        return;
      }
      if UsernameTaken(users, username, id) || EmailTaken(users, email, id) {
        return Err(DuplicateKey);
      }
      WriteKeepsUnique(users, id, r.value);
      users := users[id := r.value];
    }

    /** changeUserEmail: `findByIdAndUpdate(id, {email}, {new: true})`. No
        validator runs on this path, so "" is accepted; the unique index still
        applies. An unknown id matches nothing and yields null. */
    method ChangeUserEmail(id: Id, email: string) returns (r: Result<Option<User>>)
      requires Valid()
      modifies this
      ensures Valid()
      ensures tweets == old(tweets) && follows == old(follows)
      ensures id !in old(users) ==> r == Ok(None) && users == old(users)
      ensures id in old(users) && EmailTaken(old(users), email, id) ==>
                r == Err(DuplicateKey) && users == old(users)
      ensures id in old(users) && !EmailTaken(old(users), email, id) ==>
                && r.Ok? && r.value.Some?
                && r.value.value == old(users)[id].(email := email)
                && users == old(users)[id := r.value.value]
    {
      if id !in users {
        return Ok(None);
      }
      if EmailTaken(users, email, id) {
        return Err(DuplicateKey);
      }
      var updated := users[id].(email := email);
      WriteKeepsUnique(users, id, updated);
      users := users[id := updated];
      r := Ok(Some(updated));
    }

    /** changeUsername: as changeUserEmail, for the username path. */
    method ChangeUsername(id: Id, username: string) returns (r: Result<Option<User>>)
      requires Valid()
      modifies this
      ensures Valid()
      ensures tweets == old(tweets) && follows == old(follows)
      ensures id !in old(users) ==> r == Ok(None) && users == old(users)
      ensures id in old(users) && UsernameTaken(old(users), username, id) ==>
                r == Err(DuplicateKey) && users == old(users)
      ensures id in old(users) && !UsernameTaken(old(users), username, id) ==>
                && r.Ok? && r.value.Some?
                && r.value.value == old(users)[id].(username := username)
                && users == old(users)[id := r.value.value]
    {
      if id !in users {
        return Ok(None);
      }
      if UsernameTaken(users, username, id) {
        return Err(DuplicateKey);
      }
      var updated := users[id].(username := username);
      WriteKeepsUnique(users, id, updated);
      users := users[id := updated];
      r := Ok(Some(updated));
    }

    /** changeUserPassword: overwrites the password as given; no index or
        validator is involved, so only an unknown id stops it. */
    method ChangeUserPassword(id: Id, password: string) returns (r: Option<User>)
      requires Valid()
      modifies this
      ensures Valid()
      ensures tweets == old(tweets) && follows == old(follows)
      ensures id !in old(users) ==> r == None && users == old(users)
      ensures id in old(users) ==>
                && r == Some(old(users)[id].(password := password))
                && users == old(users)[id := r.value]
    {
      if id !in users {
        return None;
      }
      var updated := users[id].(password := password);
      WriteKeepsUnique(users, id, updated);
      users := users[id := updated];
      r := Some(updated);
    }

    /** changeUserBio: overwrites the bio; only an unknown id stops it. */
    method ChangeUserBio(id: Id, bio: string) returns (r: Option<User>)
      requires Valid()
      modifies this
      ensures Valid()
      ensures tweets == old(tweets) && follows == old(follows)
      ensures id !in old(users) ==> r == None && users == old(users)
      ensures id in old(users) ==>
                && r == Some(old(users)[id].(bio := Some(bio)))
                && users == old(users)[id := r.value]
    {
      if id !in users {
        return None;
      }
      var updated := users[id].(bio := Some(bio));
      WriteKeepsUnique(users, id, updated);
      users := users[id := updated];
      r := Some(updated);
    }

    /** deleteUser: `findByIdAndDelete(id)`, a query delete. The cascade hook
        is registered for document deletes only, so the user's tweets and
        follow edges stay behind. Returns the removed record, or null. */
    method DeleteUser(id: Id) returns (r: Option<User>)
      requires Valid()
      modifies this
      ensures Valid()
      ensures r == if id in old(users) then Some(old(users)[id]) else None
      ensures users == old(users) - {id}
      ensures tweets == old(tweets) && follows == old(follows)
    {
      r := if id in users then Some(users[id]) else None;
      RemoveKeepsUnique(users, {id});
      users := users - {id};
    }

    /** `userDoc.deleteOne()`: the pre-`deleteOne` hook removes every follow
        edge that mentions the user, then every tweet the user owns, and then
        the document itself is removed. Tweets of other users, including their
        retweets of this user's tweets, are kept. */
    method DeleteUserDocument(id: Id)
      requires Valid()
      modifies this
      ensures Valid()
      ensures users == old(users) - {id}
      ensures follows == EdgesNotTouching(old(follows), id)
      ensures forall e :: e in follows <==> e in old(follows) && !Touches(e, id)
      ensures tweets == TweetsNotOwnedBy(old(tweets), id)
      ensures forall t :: t in tweets ==> tweets[t].userId != id
      ensures forall t :: t in old(tweets) && old(tweets)[t].userId != id ==> t in tweets && tweets[t] == old(tweets)[t]
    {
      follows := DeleteEdgesTouching(follows, id);
      EdgesNotTouchingMembers(old(follows), id);
      tweets := TweetsNotOwnedBy(tweets, id);
      RemoveKeepsUnique(users, {id});
      users := users - {id};
    }

    /** deleteUser as the hook's authors evidently meant it to behave: load
        the user and delete the document, so that the hook runs. Returns the
        removed record, or null with the store unchanged. */
    method DeleteUserWithCascade(id: Id) returns (r: Option<User>)
      requires Valid()
      modifies this
      ensures Valid()
      ensures r == if id in old(users) then Some(old(users)[id]) else None
      ensures users == old(users) - {id}
      ensures r.None? ==> tweets == old(tweets) && follows == old(follows)
      ensures r.Some? ==> follows == EdgesNotTouching(old(follows), id)
      ensures r.Some? ==> forall e :: e in follows <==> e in old(follows) && !Touches(e, id)
      ensures r.Some? ==> tweets == TweetsNotOwnedBy(old(tweets), id)
    {
      if id !in users {
        return None;
      }
      r := Some(users[id]);
      DeleteUserDocument(id);
    }

    /** `new Tweet(d).save()` under the fresh id `id`: stored exactly when the
        document validates. The resolvers never supply the counters. */
    method InsertTweet(id: Id, d: TweetDoc, now: int) returns (r: Result<Tweet>)
      requires Valid()
      requires id !in tweets
      requires d.likes.None? && d.retweets.None?
      modifies this
      ensures Valid()
      ensures users == old(users) && follows == old(follows)
      ensures r == BuildTweet(d, now)
      ensures tweets == if r.Ok? then old(tweets)[id := r.value] else old(tweets)
    {
      r := BuildTweet(d, now);
      if r.Ok? {
        tweets := tweets[id := r.value];
      }
    }

    /** createTweet: stores a tweet with the given owner, content and image,
        zero counters, the creation time and no origin. The owner is not looked
        up among the users. */
    method CreateTweet(id: Id, userId: Id, content: string, imageURL: Option<string>, now: int)
      returns (r: Result<Tweet>)
      requires Valid()
      requires id !in tweets
      modifies this
      ensures Valid()
      ensures users == old(users) && follows == old(follows)
      ensures r.Ok? <==> content != "" && |content| <= MaxContentLength
      ensures r.Ok? ==> r.value == Tweet(userId, content, now, 0, 0, imageURL, None)
      ensures r.Ok? ==> tweets == old(tweets)[id := r.value]
      ensures r.Err? ==> r.error.ValidationError? && tweets == old(tweets)
    {
      ComposeDefaults(userId, content, imageURL, now);
      r := InsertTweet(id, ComposeDoc(userId, content, imageURL), now);
    }

    /** editTweet: `findByIdAndUpdate(id, {content, imageURL}, {new: true})`
        without validators, so the content rules are not re-checked. An absent
        imageURL is dropped from the update and leaves the stored one. */
    method EditTweet(id: Id, content: string, imageURL: Option<string>) returns (r: Option<Tweet>)
      requires Valid()
      modifies this
      ensures Valid()
      ensures users == old(users) && follows == old(follows)
      ensures id !in old(tweets) ==> r == None && tweets == old(tweets)
      ensures id in old(tweets) ==> r.Some? && tweets == old(tweets)[id := r.value]
      ensures id in old(tweets) ==>
                && r.value.content == content
                && r.value.imageURL == (if imageURL.Some? then imageURL else old(tweets)[id].imageURL)
                && r.value.userId == old(tweets)[id].userId
                && r.value.timestamp == old(tweets)[id].timestamp
                && r.value.likes == old(tweets)[id].likes
                && r.value.retweets == old(tweets)[id].retweets
                && r.value.originalTweet == old(tweets)[id].originalTweet
    {
      if id !in tweets {
        return None;
      }
      var t := tweets[id];
      var edited := t.(content := content, imageURL := if imageURL.Some? then imageURL else t.imageURL);
      tweets := tweets[id := edited];
      r := Some(edited);
    }

    /** likeTweet: load, add 1 to likes, `save()`. An unknown id throws
        "Tweet not found". `save()` re-validates every path, so a tweet whose
        content an edit left empty or over the cap cannot be liked. */
    method LikeTweet(id: Id) returns (r: Result<Tweet>)
      requires Valid()
      modifies this
      ensures Valid()
      ensures users == old(users) && follows == old(follows)
      ensures id !in old(tweets) ==> r == Err(TweetNotFound) && tweets == old(tweets)
      ensures id in old(tweets) && ContentAccepted(Some(old(tweets)[id].content)) ==>
                && r == Ok(old(tweets)[id].(likes := old(tweets)[id].likes + 1))
                && tweets == old(tweets)[id := r.value]
      ensures id in old(tweets) && !ContentAccepted(Some(old(tweets)[id].content)) ==>
                r.Err? && r.error.ValidationError? && tweets == old(tweets)
    {
      if id !in tweets {
        return Err(TweetNotFound);
      }
      var liked := tweets[id].(likes := tweets[id].likes + 1);
      ResaveRoundTrip(liked, liked.timestamp);
      r := BuildTweet(AsDoc(liked), liked.timestamp);
      if r.Ok? {
        tweets := tweets[id := r.value];
      }
    }

    /** retweet: saves a document with an owner and an origin but no
        content, which the required-content rule rejects. Nothing is stored
        and the origin's retweet counter is not touched. */
    method Retweet(id: Id, userId: Id, originalTweetId: Id, now: int) returns (r: Result<Tweet>)
      requires Valid()
      requires id !in tweets
      modifies this
      ensures Valid()
      ensures r == Err(ValidationError({Missing(Content)}))
      ensures users == old(users) && tweets == old(tweets) && follows == old(follows)
    {
      RetweetRejected(userId, originalTweetId, now);
      r := InsertTweet(id, RetweetDoc(userId, originalTweetId), now);
    }

    /** deleteTweet: `findByIdAndDelete(id)`. Tweets whose origin is this
        tweet keep their (now dangling) reference. Returns the removed record,
        or null. */
    method DeleteTweet(id: Id) returns (r: Option<Tweet>)
      requires Valid()
      modifies this
      ensures Valid()
      ensures users == old(users) && follows == old(follows)
      ensures r == if id in old(tweets) then Some(old(tweets)[id]) else None
      ensures tweets == old(tweets) - {id}
      ensures forall t :: t in old(tweets) && t != id ==> t in tweets && tweets[t] == old(tweets)[t]
    {
      r := if id in tweets then Some(tweets[id]) else None;
      tweets := tweets - {id};
    }

    /** followUser: appends the edge. Neither user is looked up, an identical
        edge may already exist, and follower and followee may be the same. */
    method FollowUser(followerId: Id, followingId: Id) returns (r: Result<Follow>)
      requires Valid()
      modifies this
      ensures Valid()
      ensures users == old(users) && tweets == old(tweets)
      ensures r == Ok(Follow(followerId, followingId))
      ensures follows == old(follows) + [Follow(followerId, followingId)]
    {
      r := ValidateFollow(FollowDoc(Some(followerId), Some(followingId)));
      if r.Ok? {
        follows := follows + [r.value];
      }
    }

    /** unfollowUser: `findOneAndDelete({followerId, followingId})` removes the
        first matching edge and returns it, or returns null and changes
        nothing. */
    method UnfollowUser(followerId: Id, followingId: Id) returns (r: Option<Follow>)
      requires Valid()
      modifies this
      ensures Valid()
      ensures users == old(users) && tweets == old(tweets)
      ensures r.None? <==> forall k :: 0 <= k < |old(follows)| ==> !Matches(old(follows)[k], followerId, followingId)
      ensures r.Some? ==> Matches(r.value, followerId, followingId)
      ensures match FirstMatch(old(follows), followerId, followingId)
              case None => r == None && follows == old(follows)
              case Some(i) => r == Some(old(follows)[i]) && follows == RemoveAt(old(follows), i)
    {
      var i := FindFirstMatch(follows, followerId, followingId);
      match i
      case None =>
        r := None;
      case Some(k) =>
        r := Some(follows[k]);
        follows := RemoveAt(follows, k);
    }
  }

  /** The deleteUser resolver as written: after deleting user `u` whom `v`
      follows, the edge v -> u is still stored although `u` is gone, which
      the cascade of DeleteUserDocument exists to prevent. */
  method DeleteUserLeavesEdge(s: Store, u: Id, v: Id)
    requires s.Valid()
    requires u in s.users && s.follows == [Follow(v, u)]
    modifies s
    ensures u !in s.users
    ensures s.follows == [Follow(v, u)] && Touches(s.follows[0], u)
  {
    var gone := s.DeleteUser(u);
  }

  /** The same store with the corrected resolver: no edge is left. */
  method DeleteUserWithCascadeClearsEdge(s: Store, u: Id, v: Id)
    requires s.Valid()
    requires u in s.users && s.follows == [Follow(v, u)]
    modifies s
    ensures u !in s.users
    ensures s.follows == []
  {
    var gone := s.DeleteUserWithCascade(u);
    assert [Follow(v, u)][..0] == [];
  }

  /** Running the cascade a second time on the same id changes nothing
      further: each of its three passes is idempotent. */
  lemma CascadeIdempotent(users: map<Id, User>, tweets: map<Id, Tweet>, follows: seq<Follow>, id: Id)
    ensures EdgesNotTouching(EdgesNotTouching(follows, id), id) == EdgesNotTouching(follows, id)
    ensures TweetsNotOwnedBy(TweetsNotOwnedBy(tweets, id), id) == TweetsNotOwnedBy(tweets, id)
    ensures (users - {id}) - {id} == users - {id}
  {
    EdgesNotTouchingIdempotent(follows, id);
    TweetsNotOwnedByIdempotent(tweets, id);
  }
}
