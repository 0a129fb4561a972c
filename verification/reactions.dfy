/** Reaction buckets of one message: emoji to the user ids who reacted with it. */
module Reactions {
  import opened Base

  type ReactionMap = map<Emoji, seq<UserId>>

  /** The users under one emoji; a missing key reads as an empty bucket. */
  function Bucket(r: ReactionMap, e: Emoji): seq<UserId> {
    if e in r then r[e] else []
  }

  /** `xs` with every occurrence of `u` dropped, the rest kept in order. */
  function RemoveAll(xs: seq<UserId>, u: UserId): (r: seq<UserId>)
    ensures u !in r
    ensures forall v :: v != u ==> multiset(r)[v] == multiset(xs)[v]
    ensures u !in xs ==> r == xs
    ensures |r| <= |xs|
  {
    if xs == [] then []
    else
      assert xs == [xs[0]] + xs[1..];
      if xs[0] == u then RemoveAll(xs[1..], u)
      else [xs[0]] + RemoveAll(xs[1..], u)
  }

  lemma {:induction false} RemoveAllAppend(xs: seq<UserId>, ys: seq<UserId>, u: UserId)
    ensures RemoveAll(xs + ys, u) == RemoveAll(xs, u) + RemoveAll(ys, u)
  {
    if xs == [] {
      assert xs + ys == ys;
    } else {
      assert (xs + ys)[0] == xs[0];
      assert (xs + ys)[1..] == xs[1..] + ys;
      RemoveAllAppend(xs[1..], ys, u);
    }
  }

  /** On one entry the filter keeps it exactly when it is not `u`; with
      `RemoveAllAppend` this fixes the result, kept entries in their order. */
  lemma RemoveAllSingleton(v: UserId, u: UserId)
    ensures RemoveAll([v], u) == if v == u then [] else [v]
  {
    assert [v][1..] == [];
  }

  lemma {:induction false} RemoveAllKeepsDistinct(xs: seq<UserId>, u: UserId)
    requires NoDuplicates(xs)
    ensures NoDuplicates(RemoveAll(xs, u))
  {
    if xs != [] {
      NoDuplicatesTail(xs);
      RemoveAllKeepsDistinct(xs[1..], u);
      if xs[0] != u {
        var rest := RemoveAll(xs[1..], u);
        assert multiset(rest)[xs[0]] == 0;
        ConsDistinct(xs[0], rest);
      }
    }
  }

  /** Putting a fresh user in front of a duplicate-free sequence keeps it duplicate-free. */
  lemma ConsDistinct(x: UserId, rest: seq<UserId>)
    requires NoDuplicates(rest) && x !in rest
    ensures NoDuplicates([x] + rest)
  {
    var r := [x] + rest;
    forall i, j | 0 <= i < j < |r|
      ensures r[i] != r[j]
    {
      assert r[j] == rest[j - 1];
      if i > 0 {
        assert r[i] == rest[i - 1];
      }
    }
  }

  /** Toggle `u` in the bucket of `e`: remove every occurrence when present, append otherwise.
      A missing bucket is created first, so `e` is a key afterwards either way. */
  function Toggle(r: ReactionMap, e: Emoji, u: UserId): (r': ReactionMap)
    ensures e in r'
    ensures u in r'[e] <==> u !in Bucket(r, e)
    ensures u !in Bucket(r, e) ==> r'[e] == Bucket(r, e) + [u]
    ensures RemoveAll(r'[e], u) == RemoveAll(Bucket(r, e), u)
    ensures forall e' :: e' != e ==> (e' in r' <==> e' in r) && (e' in r ==> r'[e'] == r[e'])
    ensures NoDuplicates(Bucket(r, e)) ==> NoDuplicates(r'[e])
  {
    var b := Bucket(r, e);
    if u in b then
      if NoDuplicates(b) then RemoveAllKeepsDistinct(b, u); r[e := RemoveAll(b, u)]
      else r[e := RemoveAll(b, u)]
    else
      RemoveAllAppend(b, [u], u);
      assert RemoveAll([u], u) == [];
      r[e := b + [u]]
  }

  /** Two toggles in a row restore the membership of the bucket, leave every other
      emoji alone, restore the bucket's contents exactly as a multiset when it had no
      duplicates, and restore the whole map when `u` was absent from an existing bucket. */
  lemma ToggleTwice(r: ReactionMap, e: Emoji, u: UserId)
    ensures forall v :: v in Bucket(Toggle(Toggle(r, e, u), e, u), e) <==> v in Bucket(r, e)
    ensures forall e' :: e' != e ==>
      (e' in Toggle(Toggle(r, e, u), e, u) <==> e' in r) &&
      (e' in r ==> Toggle(Toggle(r, e, u), e, u)[e'] == r[e'])
    ensures NoDuplicates(Bucket(r, e)) ==>
      multiset(Bucket(Toggle(Toggle(r, e, u), e, u), e)) == multiset(Bucket(r, e))
    ensures e in r && u !in r[e] ==> Toggle(Toggle(r, e, u), e, u) == r
  {
    var b := Bucket(r, e);
    var r1 := Toggle(r, e, u);
    var r2 := Toggle(r1, e, u);
    assert Bucket(r1, e) == r1[e];
    assert Bucket(r2, e) == r2[e];
    if u in b {
      ToggleTwicePresent(b, r1[e], r2[e], u);
    } else {
      ToggleTwiceAbsent(b, r1[e], r2[e], u);
      if e in r {
        assert r2.Keys == r.Keys;
      }
    }
  }

  /** Second half of a double toggle when `u` started in the bucket `b`. */
  lemma ToggleTwicePresent(b: seq<UserId>, b1: seq<UserId>, b2: seq<UserId>, u: UserId)
    requires u in b && u !in b1 && RemoveAll(b1, u) == RemoveAll(b, u)
    requires b2 == b1 + [u]
    ensures forall v :: v in b2 <==> v in b
    ensures NoDuplicates(b) ==> multiset(b2) == multiset(b)
  {
    assert b1 == RemoveAll(b, u);
    forall v ensures v in b2 <==> v in b {
      if v != u {
        assert multiset(b1)[v] == multiset(b)[v];
      }
    }
    if NoDuplicates(b) {
      DistinctOccursOnce(b, u);
      assert multiset(b2) == multiset(b1) + multiset{u};
      forall v ensures multiset(b2)[v] == multiset(b)[v] {
        if v != u {
          assert multiset(b1)[v] == multiset(b)[v];
        }
      }
    }
  }

  /** Second half of a double toggle when `u` started outside the bucket `b`. */
  lemma ToggleTwiceAbsent(b: seq<UserId>, b1: seq<UserId>, b2: seq<UserId>, u: UserId)
    requires u !in b && b1 == b + [u]
    requires u !in b2 && RemoveAll(b2, u) == RemoveAll(b1, u)
    ensures b2 == b
  {
    RemoveAllAppend(b, [u], u);
    assert RemoveAll([u], u) == [];
  }
}
