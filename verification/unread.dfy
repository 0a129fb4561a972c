/** Per-(user, conversation) unread counters and the fan-out a send performs. */
module Unread {
  import opened Base

  /** The index `by_user_conversation`: at most one counter per pair. */
  datatype UnreadKey = UnreadKey(userId: UserId, conversationId: ConversationId)

  type UnreadMap = map<UnreadKey, nat>

  /** The externally observable count: a missing counter reads as zero. */
  function Count(u: UnreadMap, k: UnreadKey): nat {
    if k in u then u[k] else 0
  }

  /** Bump one counter: an existing counter goes up by one, a missing one is created at 1. */
  function Increment(u: UnreadMap, k: UnreadKey): (r: UnreadMap)
    ensures k in r && r[k] == Count(u, k) + 1
    ensures k !in u ==> r[k] == 1
    ensures forall k' :: k' != k ==> (k' in r <==> k' in u) && (k' in u ==> r[k'] == u[k'])
  {
    u[k := Count(u, k) + 1]
  }

  /** `k` is a counter the send of `sender` into `c` must bump: a participant other than the sender. */
  predicate Recipient(k: UnreadKey, participants: seq<UserId>, sender: UserId, c: ConversationId) {
    k.conversationId == c && k.userId != sender && k.userId in participants
  }

  /** `after` is `before` with every recipient's counter raised by the number of times
      that recipient appears among the participants, and every other counter untouched. */
  ghost predicate FannedOut(before: UnreadMap, after: UnreadMap, participants: seq<UserId>, sender: UserId, c: ConversationId) {
    forall k ::
      && (Recipient(k, participants, sender, c) ==>
            k in after && after[k] == Count(before, k) + multiset(participants)[k.userId])
      && (!Recipient(k, participants, sender, c) ==>
            (k in after <==> k in before) && (k in before ==> after[k] == before[k]))
  }

  /** The loop over `conv.participants`, first participant first. */
  function FanOut(u: UnreadMap, participants: seq<UserId>, sender: UserId, c: ConversationId): (r: UnreadMap)
    ensures FannedOut(u, r, participants, sender, c)
    decreases |participants|
  {
    if participants == [] then u
    else
      var p := participants[0];
      var next := if p != sender then Increment(u, UnreadKey(p, c)) else u;
      var r := FanOut(next, participants[1..], sender, c);
      FanOutStep(u, next, r, participants, sender, c);
      r
  }

  /** One iteration of the loop composed with the rest of it. */
  lemma FanOutStep(u: UnreadMap, next: UnreadMap, r: UnreadMap, participants: seq<UserId>, sender: UserId, c: ConversationId)
    requires participants != []
    requires next == if participants[0] != sender then Increment(u, UnreadKey(participants[0], c)) else u
    requires FannedOut(next, r, participants[1..], sender, c)
    ensures FannedOut(u, r, participants, sender, c)
  {
    var p := participants[0];
    var rest := participants[1..];
    assert participants == [p] + rest;
    assert multiset(participants) == multiset{p} + multiset(rest);
    forall k
      ensures Recipient(k, participants, sender, c) ==>
            k in r && r[k] == Count(u, k) + multiset(participants)[k.userId]
      ensures !Recipient(k, participants, sender, c) ==>
            (k in r <==> k in u) && (k in u ==> r[k] == u[k])
    {
      if k.userId !in rest {
        assert multiset(rest)[k.userId] == 0;
      }
    }
  }

  /** With distinct participants each recipient's counter goes up by exactly one. */
  lemma FanOutIncrementsOnce(u: UnreadMap, participants: seq<UserId>, sender: UserId, c: ConversationId, k: UnreadKey)
    requires NoDuplicates(participants)
    requires Recipient(k, participants, sender, c)
    ensures k in FanOut(u, participants, sender, c)
    ensures FanOut(u, participants, sender, c)[k] == Count(u, k) + 1
  {
    DistinctOccursOnce(participants, k.userId);
  }
}
