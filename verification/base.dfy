/** Identifiers and small wrapper types shared by the chat model. */
module Base {

  /** Convex document ids of users and conversations are opaque strings. */
  type UserId = string
  type ConversationId = string

  /** Message ids are handed out by the store; a counter stands for its fresh-id supply. */
  type MessageId = nat

  type Emoji = string

  /** An optional value: `undefined`/`null` in the source is `None`. */
  datatype Option<+T> = None | Some(value: T)

  /** The outcome of a mutation that can abort. */
  datatype Result<+T, +E> = Success(value: T) | Failure(error: E)

  /** No user id occurs twice. */
  predicate NoDuplicates(xs: seq<UserId>) {
    forall i, j :: 0 <= i < j < |xs| ==> xs[i] != xs[j]
  }

  /** In a duplicate-free sequence every element occurs exactly once. */
  lemma {:induction false} DistinctOccursOnce(xs: seq<UserId>, x: UserId)
    requires NoDuplicates(xs)
    ensures multiset(xs)[x] == if x in xs then 1 else 0
  {
    if xs != [] {
      assert xs == [xs[0]] + xs[1..];
      NoDuplicatesTail(xs);
      DistinctOccursOnce(xs[1..], x);
    }
  }

  /** The tail of a duplicate-free sequence is duplicate-free and misses the head. */
  lemma NoDuplicatesTail(xs: seq<UserId>)
    requires NoDuplicates(xs) && xs != []
    ensures NoDuplicates(xs[1..])
    ensures xs[0] !in xs[1..]
  {
  }
}
