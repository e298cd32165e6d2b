/** The follow-edge collection: a directed edge from a follower to the user
    followed. The schema requires both references and nothing else: there is
    no unique index and no rule against following oneself. The collection is a
    sequence so that "the first matching edge" has a meaning. */
module FollowModel {
  import opened Common

  /** A stored edge: exactly the two user references. */
  datatype Follow = Follow(followerId: Id, followingId: Id)

  /** What `new Follow({...})` receives: either reference may be absent. */
  datatype FollowDoc = FollowDoc(followerId: Option<Id>, followingId: Option<Id>)

  function FollowViolations(d: FollowDoc): set<Violation>
  {
    (if d.followerId.None? then {Missing(FollowerId)} else {}) +
    (if d.followingId.None? then {Missing(FollowingId)} else {})
  }

  /** Schema validation run by `save()`: an edge is stored only when both
      references are present; the stored edge carries exactly those two. */
  function ValidateFollow(d: FollowDoc): (r: Result<Follow>)
    ensures r.Ok? <==> d.followerId.Some? && d.followingId.Some?
    ensures r.Ok? ==> r.value.followerId == d.followerId.value && r.value.followingId == d.followingId.value
    ensures r.Err? ==> r.error.ValidationError?
    ensures r.Err? ==> (Missing(FollowerId) in r.error.violations <==> d.followerId.None?)
    ensures r.Err? ==> (Missing(FollowingId) in r.error.violations <==> d.followingId.None?)
  {
    var v := FollowViolations(d);
    if v == {} then Ok(Follow(d.followerId.value, d.followingId.value))
    else Err(ValidationError(v))
  }

  /** No self-follow rule: an edge from a user to that same user validates. */
  lemma SelfFollowValid(u: Id)
    ensures ValidateFollow(FollowDoc(Some(u), Some(u))) == Ok(Follow(u, u))
  {
  }

  /** The edge mentions `id` at either end (the `$or` filter of the cascade). */
  predicate Touches(e: Follow, id: Id) {
    e.followerId == id || e.followingId == id
  }

  /** The edge is exactly follower -> following (the unfollow filter). */
  predicate Matches(e: Follow, follower: Id, following: Id) {
    e.followerId == follower && e.followingId == following
  }

  /** The edges that survive `deleteMany` of every edge touching `id`,
      in their original order. */
  function EdgesNotTouching(s: seq<Follow>, id: Id): seq<Follow>
  {
    if s == [] then []
    else
      var last := s[|s| - 1];
      EdgesNotTouching(s[..|s| - 1], id) + (if Touches(last, id) then [] else [last])
  }

  /** The cascade filter removes every edge mentioning `id` and keeps every
      other edge. */
  lemma {:induction false} EdgesNotTouchingMembers(s: seq<Follow>, id: Id)
    ensures forall e :: e in EdgesNotTouching(s, id) <==> e in s && !Touches(e, id)
  {
    if s != [] {
      var init := s[..|s| - 1];
      EdgesNotTouchingMembers(init, id);
      assert s == init + [s[|s| - 1]];
    }
  }

  /** Filtering distributes over concatenation. */
  lemma {:induction false} EdgesNotTouchingAppend(a: seq<Follow>, b: seq<Follow>, id: Id)
    ensures EdgesNotTouching(a + b, id) == EdgesNotTouching(a, id) + EdgesNotTouching(b, id)
  {
    if b == [] {
      assert a + b == a;
    } else {
      var init := b[..|b| - 1];
      EdgesNotTouchingAppend(a, init, id);
      assert (a + b)[..|a + b| - 1] == a + init;
    }
  }

  /** Running the follow pass of the cascade twice removes nothing more. */
  lemma {:induction false} EdgesNotTouchingIdempotent(s: seq<Follow>, id: Id)
    ensures EdgesNotTouching(EdgesNotTouching(s, id), id) == EdgesNotTouching(s, id)
  {
    if s != [] {
      var init, last := s[..|s| - 1], s[|s| - 1];
      EdgesNotTouchingIdempotent(init, id);
      var kept := if Touches(last, id) then [] else [last];
      EdgesNotTouchingAppend(EdgesNotTouching(init, id), kept, id);
      assert EdgesNotTouching(kept, id) == kept by {
        if kept != [] {
          assert kept[..0] == [];
        }
      }
    }
  }

  /** `Follow.deleteMany({$or: [{followerId: id}, {followingId: id}]})`:
      one pass over the collection keeping the edges that do not mention `id`. */
  method DeleteEdgesTouching(s: seq<Follow>, id: Id) returns (kept: seq<Follow>)
    ensures kept == EdgesNotTouching(s, id)
  {
    kept := [];
    var i := 0;
    while i < |s|
      invariant 0 <= i <= |s|
      invariant kept == EdgesNotTouching(s[..i], id)
    {
      assert s[..i + 1][..i] == s[..i];
      if !Touches(s[i], id) {
        kept := kept + [s[i]];
      }
      i := i + 1;
    }
    assert s[..|s|] == s;
  }

  /** The position of the first edge follower -> following, if any. */
  function FirstMatch(s: seq<Follow>, follower: Id, following: Id): (r: Option<nat>)
    ensures r.None? <==> forall k :: 0 <= k < |s| ==> !Matches(s[k], follower, following)
    ensures r.Some? ==> r.value < |s| && Matches(s[r.value], follower, following)
    ensures r.Some? ==> forall k :: 0 <= k < r.value ==> !Matches(s[k], follower, following)
  {
    if s == [] then None
    else if Matches(s[0], follower, following) then Some(0)
    else
      match FirstMatch(s[1..], follower, following)
      case None => None
      case Some(i) => Some(i + 1)
  }

  /** The scan behind `Follow.findOneAndDelete({followerId, followingId})`. */
  method FindFirstMatch(s: seq<Follow>, follower: Id, following: Id) returns (r: Option<nat>)
    ensures r == FirstMatch(s, follower, following)
  {
    var i := 0;
    while i < |s|
      invariant 0 <= i <= |s|
      invariant forall k :: 0 <= k < i ==> !Matches(s[k], follower, following)
    {
      if Matches(s[i], follower, following) {
        return Some(i);
      }
      i := i + 1;
    }
    return None;
  }

  /** The collection with the edge at position `i` deleted: every other edge
      stays, in order, and exactly one occurrence of `s[i]` goes. */
  function RemoveAt(s: seq<Follow>, i: nat): (r: seq<Follow>)
    requires i < |s|
    ensures |r| == |s| - 1
    ensures forall k :: 0 <= k < i ==> r[k] == s[k]
    ensures forall k :: i <= k < |r| ==> r[k] == s[k + 1]
    ensures multiset(r) + multiset{s[i]} == multiset(s)
  {
    assert s == s[..i] + [s[i]] + s[i + 1..];
    s[..i] + s[i + 1..]
  }
}
