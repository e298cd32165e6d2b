/** The tweet collection: the schema's rules (required owner and content,
    a 280-character cap on content) and its defaults (zero counters, the
    creation time). A retweet is a tweet whose `originalTweet` names another
    tweet; that reference is never checked against the collection. */
module TweetModel {
  import opened Common

  /** The `maxlength` of the content path. */
  const MaxContentLength: nat := 280

  /** A stored tweet. `timestamp` is a Date, kept as milliseconds. */
  datatype Tweet = Tweet(
    userId: Id,
    content: string,
    timestamp: int,
    likes: int,
    retweets: int,
    imageURL: Option<string>,
    originalTweet: Option<Id>)

  /** What `new Tweet({...})` receives: any path may be left out. */
  datatype TweetDoc = TweetDoc(
    userId: Option<Id>,
    content: Option<string>,
    timestamp: Option<int>,
    likes: Option<int>,
    retweets: Option<int>,
    imageURL: Option<string>,
    originalTweet: Option<Id>)

  /** The content rules: `required` (present and not "") and `maxlength`. */
  predicate ContentAccepted(content: Option<string>) {
    PresentString(content) && |content.value| <= MaxContentLength
  }

  function TweetViolations(d: TweetDoc): set<Violation>
  {
    (if d.userId.None? then {Missing(UserId)} else {}) +
    (if !PresentString(d.content) then {Missing(Content)}
     else if |d.content.value| > MaxContentLength then {TooLong(Content)}
     else {})
  }

  /** Document construction with the schema defaults, then the validation
      `save()` runs. A tweet is stored only with an owner and accepted content;
      an absent counter starts at 0 and an absent timestamp is `now`; the
      optional references are kept as given. */
  function BuildTweet(d: TweetDoc, now: int): (r: Result<Tweet>)
    ensures r.Ok? <==> d.userId.Some? && ContentAccepted(d.content)
    ensures r.Ok? ==> r.value.userId == d.userId.value && r.value.content == d.content.value
    ensures r.Ok? ==> r.value.likes == d.likes.GetOr(0) && r.value.retweets == d.retweets.GetOr(0)
    ensures r.Ok? ==> r.value.timestamp == d.timestamp.GetOr(now)
    ensures r.Ok? ==> r.value.imageURL == d.imageURL && r.value.originalTweet == d.originalTweet
    ensures r.Err? ==> r.error.ValidationError?
    ensures r.Err? ==> (Missing(UserId) in r.error.violations <==> d.userId.None?)
    ensures r.Err? ==> (Missing(Content) in r.error.violations <==> !PresentString(d.content))
    ensures r.Err? ==> (TooLong(Content) in r.error.violations <==>
                          PresentString(d.content) && |d.content.value| > MaxContentLength)
  {
    var v := TweetViolations(d);
    if v == {} then
      Ok(Tweet(d.userId.value, d.content.value, d.timestamp.GetOr(now),
               d.likes.GetOr(0), d.retweets.GetOr(0), d.imageURL, d.originalTweet))
    else Err(ValidationError(v))
  }

  /** The document createTweet builds: owner, content and image only. */
  function ComposeDoc(userId: Id, content: string, imageURL: Option<string>): TweetDoc {
    TweetDoc(Some(userId), Some(content), None, None, None, imageURL, None)
  }

  /** The document retweet builds: owner and origin only, no content. */
  function RetweetDoc(userId: Id, originalTweetId: Id): TweetDoc {
    TweetDoc(Some(userId), None, None, None, None, None, Some(originalTweetId))
  }

  /** A stored tweet as a loaded document: every path present. */
  function AsDoc(t: Tweet): TweetDoc {
    TweetDoc(Some(t.userId), Some(t.content), Some(t.timestamp), Some(t.likes),
             Some(t.retweets), t.imageURL, t.originalTweet)
  }

  /** Saving a loaded tweet re-runs every validator and stores it unchanged:
      it succeeds exactly when its content still meets the rules, which an
      edit does not check. */
  lemma ResaveRoundTrip(t: Tweet, now: int)
    ensures BuildTweet(AsDoc(t), now).Ok? <==> ContentAccepted(Some(t.content))
    ensures BuildTweet(AsDoc(t), now).Ok? ==> BuildTweet(AsDoc(t), now).value == t
  {
  }

  /** A composed tweet gets zero counters, the creation time and no origin;
      whether it is stored depends on its content alone. */
  lemma ComposeDefaults(userId: Id, content: string, imageURL: Option<string>, now: int)
    ensures BuildTweet(ComposeDoc(userId, content, imageURL), now).Ok?
            <==> content != "" && |content| <= MaxContentLength
    ensures content != "" && |content| <= MaxContentLength ==>
              BuildTweet(ComposeDoc(userId, content, imageURL), now)
              == Ok(Tweet(userId, content, now, 0, 0, imageURL, None))
  {
  }

  /** The retweet document never passes validation: content is required. */
  lemma RetweetRejected(userId: Id, originalTweetId: Id, now: int)
    ensures BuildTweet(RetweetDoc(userId, originalTweetId), now)
            == Err(ValidationError({Missing(Content)}))
  {
  }

  /** A tweet without an owner is rejected, whatever else it holds. */
  lemma OwnerRequired(d: TweetDoc, now: int)
    requires d.userId.None?
    ensures BuildTweet(d, now).Err?
    ensures Missing(UserId) in BuildTweet(d, now).error.violations
  {
  }

  /** The cap is inclusive: 280 characters are accepted, 281 are not. */
  lemma ContentCapBoundary(userId: Id, c: char, now: int)
    ensures BuildTweet(ComposeDoc(userId, seq(280, _ => c), None), now).Ok?
    ensures BuildTweet(ComposeDoc(userId, seq(281, _ => c), None), now)
            == Err(ValidationError({TooLong(Content)}))
  {
  }

  /** The tweets that survive `Tweet.deleteMany({userId: owner})`: exactly
      those of other owners, each unchanged. */
  function TweetsNotOwnedBy(tweets: map<Id, Tweet>, owner: Id): (r: map<Id, Tweet>)
    ensures forall t :: t in r <==> t in tweets && tweets[t].userId != owner
    ensures forall t :: t in r ==> r[t] == tweets[t]
  {
    map t | t in tweets && tweets[t].userId != owner :: tweets[t]
  }

  /** Running the tweet pass of the cascade twice removes nothing more. */
  lemma TweetsNotOwnedByIdempotent(tweets: map<Id, Tweet>, owner: Id)
    ensures TweetsNotOwnedBy(TweetsNotOwnedBy(tweets, owner), owner) == TweetsNotOwnedBy(tweets, owner)
  {
  }
}
