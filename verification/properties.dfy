/** Properties that relate several operations, or an operation to a store invariant. */
module ChatProperties {
  import opened Base
  import opened Reactions
  import opened Unread
  import opened Schema
  import opened Messages

  // ---------------------------------------------------------------- store invariants

  /** Every conversation's summary points at the newest message of its history. */
  ghost predicate LastMessageCurrent(s: Store) {
    forall c :: c in s.conversations && GetMessages(s, c) != [] ==>
      s.conversations[c].lastMessage == Some(GetMessages(s, c)[|GetMessages(s, c)| - 1].id)
  }

  /** No reaction bucket of any message lists a user twice. */
  ghost predicate ReactionsDistinct(s: Store) {
    forall i, e :: 0 <= i < |s.log| && e in s.log[i].reactions ==> NoDuplicates(s.log[i].reactions[e])
  }

  ghost predicate Invariant(s: Store) {
    Valid(s) && LastMessageCurrent(s) && ReactionsDistinct(s)
  }

  /** A store change that keeps the log's shape and the other tables keeps ids valid
      and the summaries current. */
  lemma SameShapeKeepsInvariants(s: Store, s': Store)
    requires SameShape(s.log, s'.log)
    requires s'.conversations == s.conversations && s'.nextId == s.nextId
    ensures Valid(s) ==> Valid(s')
    ensures LastMessageCurrent(s) ==> LastMessageCurrent(s')
  {
    if LastMessageCurrent(s) {
      forall c | c in s'.conversations && GetMessages(s', c) != []
        ensures s'.conversations[c].lastMessage == Some(GetMessages(s', c)[|GetMessages(s', c)| - 1].id)
      {
        SameShapeKeepsLast(s, s', c);
      }
    }
  }

  /** The newest message of a conversation keeps its id across a shape-preserving change. */
  lemma SameShapeKeepsLast(s: Store, s': Store, c: ConversationId)
    requires SameShape(s.log, s'.log)
    requires GetMessages(s', c) != []
    ensures GetMessages(s, c) != []
    ensures GetMessages(s, c)[|GetMessages(s, c)| - 1].id == GetMessages(s', c)[|GetMessages(s', c)| - 1].id
  {
    var a := GetMessages(s, c);
    var b := GetMessages(s', c);
    ProjectSameShape(s.log, s'.log, c);
    assert |a| == |b|;
    var n := |a| - 1;
    assert a[n].id == b[n].id;
  }

  /** A committed send keeps the store invariant. */
  lemma SendKeepsInvariant(s: Store, c: ConversationId, sender: UserId, content: string,
                           replyTo: Option<MessageId>, now: int)
    requires Invariant(s)
    requires c in s.conversations
    ensures Invariant(SendMessage(s, c, sender, content, replyTo, now).value.store)
  {
    SendKeepsValid(s, c, sender, content, replyTo, now);
    SendKeepsLastMessageCurrent(s, c, sender, content, replyTo, now);
    SendKeepsReactionsDistinct(s, c, sender, content, replyTo, now);
  }

  lemma SendKeepsLastMessageCurrent(s: Store, c: ConversationId, sender: UserId, content: string,
                                    replyTo: Option<MessageId>, now: int)
    requires LastMessageCurrent(s)
    requires c in s.conversations
    ensures LastMessageCurrent(SendMessage(s, c, sender, content, replyTo, now).value.store)
  {
    var sent := SendMessage(s, c, sender, content, replyTo, now).value;
    var s' := sent.store;
    var m := s'.log[|s.log|];
    assert s'.log == s.log + [m];
    AppendKeepsLastMessageCurrent(s, s', m);
  }

  /** Appending a message and pointing its conversation's summary at it, with every
      other summary left alone, keeps the summaries current. */
  lemma AppendKeepsLastMessageCurrent(s: Store, s': Store, m: Message)
    requires LastMessageCurrent(s)
    requires s'.log == s.log + [m]
    requires s'.conversations.Keys == s.conversations.Keys
    requires m.conversationId in s'.conversations
    requires s'.conversations[m.conversationId].lastMessage == Some(m.id)
    requires forall c :: c in s.conversations && c != m.conversationId ==> s'.conversations[c] == s.conversations[c]
    ensures LastMessageCurrent(s')
  {
    forall c | c in s'.conversations && GetMessages(s', c) != []
      ensures s'.conversations[c].lastMessage == Some(GetMessages(s', c)[|GetMessages(s', c)| - 1].id)
    {
      var h := GetMessages(s, c);
      var h' := GetMessages(s', c);
      ProjectAppend(s.log, [m], c);
      assert Project([m], c) == (if m.conversationId == c then [m] else []) by {
        assert [m][1..] == [];
      }
      if c != m.conversationId {
        assert h' == h;
      } else {
        assert h' == h + [m];
      }
    }
  }

  lemma SendKeepsValid(s: Store, c: ConversationId, sender: UserId, content: string,
                       replyTo: Option<MessageId>, now: int)
    requires Valid(s)
    requires c in s.conversations
    ensures Valid(SendMessage(s, c, sender, content, replyTo, now).value.store)
  {
  }

  /** A send stamped no earlier than every stored message keeps the log sorted by
      timestamp, and with it every conversation's history. */
  lemma SendKeepsTimestampsSorted(s: Store, c: ConversationId, sender: UserId, content: string,
                                  replyTo: Option<MessageId>, now: int)
    requires TimestampsSorted(s.log)
    requires forall i :: 0 <= i < |s.log| ==> s.log[i].timestamp <= now
    requires c in s.conversations
    ensures TimestampsSorted(SendMessage(s, c, sender, content, replyTo, now).value.store.log)
  {
    var s' := SendMessage(s, c, sender, content, replyTo, now).value.store;
    forall i | 0 <= i < |s.log| ensures s'.log[i] == s.log[i] {
      assert s'.log[i] == s'.log[..|s.log|][i];
    }
  }

  lemma SendKeepsReactionsDistinct(s: Store, c: ConversationId, sender: UserId, content: string,
                                   replyTo: Option<MessageId>, now: int)
    requires ReactionsDistinct(s)
    requires c in s.conversations
    ensures ReactionsDistinct(SendMessage(s, c, sender, content, replyTo, now).value.store)
  {
  }

  /** Delete, edit and react keep the store invariant. */
  lemma DeleteKeepsInvariant(s: Store, id: MessageId, caller: Option<UserId>)
    requires Invariant(s)
    ensures Invariant(DeleteMessage(s, id, caller).store)
  {
    var s' := DeleteMessage(s, id, caller).store;
    assert SameShape(s.log, s'.log);
    SameShapeKeepsInvariants(s, s');
    SameReactionsKeepDistinct(s, s');
  }

  lemma UpdateKeepsInvariant(s: Store, id: MessageId, caller: Option<UserId>, content: string)
    requires Invariant(s)
    ensures Invariant(UpdateMessage(s, id, caller, content))
  {
    var s' := UpdateMessage(s, id, caller, content);
    assert SameShape(s.log, s'.log);
    SameShapeKeepsInvariants(s, s');
    SameReactionsKeepDistinct(s, s');
  }

  lemma AddReactionKeepsInvariant(s: Store, id: MessageId, caller: Option<UserId>, emoji: Emoji)
    requires Invariant(s)
    ensures Invariant(AddReaction(s, id, caller, emoji))
  {
    var s' := AddReaction(s, id, caller, emoji);
    assert SameShape(s.log, s'.log);
    SameShapeKeepsInvariants(s, s');
    AddReactionKeepsReactionsDistinct(s, id, caller, emoji);
  }

  /** A change that leaves every message's reactions alone keeps the buckets duplicate-free. */
  lemma SameReactionsKeepDistinct(s: Store, s': Store)
    requires ReactionsDistinct(s)
    requires |s'.log| == |s.log|
    requires forall i :: 0 <= i < |s.log| ==> s'.log[i].reactions == s.log[i].reactions
    ensures ReactionsDistinct(s')
  {
  }

  lemma AddReactionKeepsReactionsDistinct(s: Store, id: MessageId, caller: Option<UserId>, emoji: Emoji)
    requires ReactionsDistinct(s)
    ensures ReactionsDistinct(AddReaction(s, id, caller, emoji))
  {
  }

  // ---------------------------------------------------------------- history

  /** A send appends the new message to its conversation's history and leaves every
      other conversation's history as it was. */
  lemma SendExtendsHistory(s: Store, c: ConversationId, sender: UserId, content: string,
                           replyTo: Option<MessageId>, now: int, c': ConversationId)
    requires c in s.conversations
    ensures var s' := SendMessage(s, c, sender, content, replyTo, now).value.store;
      GetMessages(s', c') ==
        GetMessages(s, c') + (if c' == c then [s'.log[|s.log|]] else [])
  {
    var s' := SendMessage(s, c, sender, content, replyTo, now).value.store;
    var m := s'.log[|s.log|];
    assert s'.log == s.log + [m];
    ProjectAppend(s.log, [m], c');
    assert Project([m], c') == (if m.conversationId == c' then [m] else []) by {
      assert [m][1..] == [];
    }
  }

  /** A soft delete keeps every conversation's history in place: the same ids at the
      same positions, with the deleted message still listed, flagged, content kept. */
  lemma SoftDeleteKeepsHistory(s: Store, id: MessageId, caller: Option<UserId>, c: ConversationId)
    ensures SameShape(GetMessages(s, c), GetMessages(DeleteMessage(s, id, caller).store, c))
    ensures Find(s.log, id).Some? ==>
      var before := s.log[Find(s.log, id).value];
      var after := DeleteMessage(s, id, caller).store.log[Find(s.log, id).value];
      && after in GetMessages(DeleteMessage(s, id, caller).store, before.conversationId)
      && after.content == before.content
      && (after.isDeleted <==> before.isDeleted || IsCaller(caller, before.senderId))
  {
    assert SameShape(s.log, DeleteMessage(s, id, caller).store.log);
    ProjectSameShape(s.log, DeleteMessage(s, id, caller).store.log, c);
  }

  /** Deleting twice is deleting once. */
  lemma DeleteIdempotent(s: Store, id: MessageId, caller: Option<UserId>)
    ensures var once := DeleteMessage(s, id, caller).store;
      DeleteMessage(once, id, caller).store == once
  {
  }

  /** Two edits of the same message by the same caller: the later content wins. */
  lemma UpdateLastWriterWins(s: Store, id: MessageId, caller: Option<UserId>, first: string, second: string)
    ensures UpdateMessage(UpdateMessage(s, id, caller, first), id, caller, second) ==
            UpdateMessage(s, id, caller, second)
  {
    var s1 := UpdateMessage(s, id, caller, first);
    assert SameShape(s.log, s1.log);
    FindSameShape(s.log, s1.log, id);
  }

  /** An edit keeps every conversation's history in place, and an owner's edit shows
      the new content at the message's old position. */
  lemma EditKeepsHistory(s: Store, id: MessageId, caller: Option<UserId>, content: string, c: ConversationId)
    ensures SameShape(GetMessages(s, c), GetMessages(UpdateMessage(s, id, caller, content), c))
    ensures Find(s.log, id).Some? ==>
      var before := s.log[Find(s.log, id).value];
      var after := UpdateMessage(s, id, caller, content).log[Find(s.log, id).value];
      && after in GetMessages(UpdateMessage(s, id, caller, content), before.conversationId)
      && after.isDeleted == before.isDeleted
      && (after.content == if IsCaller(caller, before.senderId) then content else before.content)
  {
    assert SameShape(s.log, UpdateMessage(s, id, caller, content).log);
    ProjectSameShape(s.log, UpdateMessage(s, id, caller, content).log, c);
  }

  // ---------------------------------------------------------------- unread counters

  /** A send raises each other participant's counter by exactly one (creating it at 1),
      and leaves the sender's counter and every counter of another conversation alone. */
  lemma SendCountsOncePerRecipient(s: Store, c: ConversationId, sender: UserId, content: string,
                                   replyTo: Option<MessageId>, now: int, k: UnreadKey)
    requires c in s.conversations
    requires NoDuplicates(s.conversations[c].participants)
    ensures var u' := SendMessage(s, c, sender, content, replyTo, now).value.store.unread;
      && (Recipient(k, s.conversations[c].participants, sender, c) ==> Count(u', k) == Count(s.unread, k) + 1)
      && (k.userId == sender || k.conversationId != c ==> Count(u', k) == Count(s.unread, k))
  {
    DistinctOccursOnce(s.conversations[c].participants, k.userId);
  }

  /** A sequence of sends by one sender into one conversation, all with the same clock value. */
  function SendAll(s: Store, c: ConversationId, sender: UserId, contents: seq<string>, now: int): (r: Store)
    requires c in s.conversations
    ensures c in r.conversations
    ensures r.conversations[c].participants == s.conversations[c].participants
    decreases |contents|
  {
    if contents == [] then s
    else SendAll(SendMessage(s, c, sender, contents[0], None, now).value.store, c, sender, contents[1..], now)
  }

  /** N sends without a read raise each other participant's counter by exactly N and
      leave every counter that is not a recipient's alone. */
  lemma {:induction false} SendAllCounts(s: Store, c: ConversationId, sender: UserId, contents: seq<string>,
                                         now: int, k: UnreadKey)
    requires c in s.conversations
    requires NoDuplicates(s.conversations[c].participants)
    ensures Recipient(k, s.conversations[c].participants, sender, c) ==>
      Count(SendAll(s, c, sender, contents, now).unread, k) == Count(s.unread, k) + |contents|
    ensures !Recipient(k, s.conversations[c].participants, sender, c) ==>
      Count(SendAll(s, c, sender, contents, now).unread, k) == Count(s.unread, k)
    decreases |contents|
  {
    if contents != [] {
      var s1 := SendMessage(s, c, sender, contents[0], None, now).value.store;
      SendCountsOncePerRecipient(s, c, sender, contents[0], None, now, k);
      SendAllCounts(s1, c, sender, contents[1..], now, k);
    }
  }

  // ---------------------------------------------------------------- reactions

  /** `after` is `m` with the same users under `e` (order aside) and every other
      emoji and field as they were. */
  ghost predicate BucketRestored(m: Message, after: Message, e: Emoji) {
    && AgreeExcept(m, after, ReactionsField)
    && (forall v :: v in Bucket(after.reactions, e) <==> v in Bucket(m.reactions, e))
    && (forall e' :: e' != e ==>
          (e' in after.reactions <==> e' in m.reactions) &&
          (e' in m.reactions ==> after.reactions[e'] == m.reactions[e']))
  }

  /** Reacting twice with the same emoji restores that bucket's membership on the
      message and changes nothing else in the store. */
  lemma AddReactionTwice(s: Store, id: MessageId, caller: Option<UserId>, emoji: Emoji)
    ensures var s2 := AddReaction(AddReaction(s, id, caller, emoji), id, caller, emoji);
      && |s2.log| == |s.log|
      && s2.conversations == s.conversations && s2.unread == s.unread && s2.nextId == s.nextId
      && (forall j :: 0 <= j < |s.log| ==> BucketRestored(s.log[j], s2.log[j], emoji))
      && (forall j :: 0 <= j < |s.log| && Find(s.log, id) != Some(j) ==> s2.log[j] == s.log[j])
  {
    var s1 := AddReaction(s, id, caller, emoji);
    if Find(s.log, id).Some? && SignedIn(caller) {
      var i := Find(s.log, id).value;
      var u := caller.value;
      assert SameShape(s.log, s1.log);
      FindSameShape(s.log, s1.log, id);
      TogglePatchedTwice(s, s1, AddReaction(s1, id, caller, emoji), i, emoji, u);
    } else {
      assert s1 == s;
      forall j | 0 <= j < |s.log|
        ensures BucketRestored(s.log[j], s.log[j], emoji)
      {
      }
    }
  }

  /** Two reaction patches of the same row by the same user restore the bucket. */
  lemma TogglePatchedTwice(s: Store, s1: Store, s2: Store, i: nat, e: Emoji, u: UserId)
    requires i < |s.log|
    requires s1 == Patch(s, i, s.log[i].(reactions := Toggle(s.log[i].reactions, e, u)))
    requires s2 == Patch(s1, i, s1.log[i].(reactions := Toggle(s1.log[i].reactions, e, u)))
    ensures |s2.log| == |s.log|
    ensures s2.conversations == s.conversations && s2.unread == s.unread && s2.nextId == s.nextId
    ensures forall j :: 0 <= j < |s.log| ==> BucketRestored(s.log[j], s2.log[j], e)
    ensures forall j :: 0 <= j < |s.log| && j != i ==> s2.log[j] == s.log[j]
  {
    ToggleTwiceOnMessage(s.log[i], s1.log[i], s2.log[i], e, u);
    forall j | 0 <= j < |s.log|
      ensures BucketRestored(s.log[j], s2.log[j], e)
    {
      if j != i {
        assert s2.log[j] == s.log[j];
      }
    }
  }

  /** The message-level half of `AddReactionTwice`. */
  lemma ToggleTwiceOnMessage(m: Message, m1: Message, m2: Message, e: Emoji, u: UserId)
    requires AgreeExcept(m, m1, ReactionsField) && m1.reactions == Toggle(m.reactions, e, u)
    requires AgreeExcept(m1, m2, ReactionsField) && m2.reactions == Toggle(m1.reactions, e, u)
    ensures BucketRestored(m, m2, e)
  {
    ToggleTwice(m.reactions, e, u);
  }

  // ---------------------------------------------------------------- scenarios

  /** Two participants; A writes "hi", then "there" in reply to it. */
  lemma SendScenario()
    ensures
      var s0 := Store([], map["C" := Conversation(["A", "B"], None, 0)], map[], 0);
      var s1 := SendMessage(s0, "C", "A", "hi", None, 10).value.store;
      var s2 := SendMessage(s1, "C", "A", "there", Some(0), 20).value.store;
      && Count(s1.unread, UnreadKey("B", "C")) == 1
      && Count(s1.unread, UnreadKey("A", "C")) == 0
      && s1.conversations["C"].lastMessage == Some(0)
      && Count(s2.unread, UnreadKey("B", "C")) == 2
      && s2.log[1].replyTo == Some(0)
      && GetMessages(s2, "C") == s2.log
  {
    var s0 := Store([], map["C" := Conversation(["A", "B"], None, 0)], map[], 0);
    var s1 := SendMessage(s0, "C", "A", "hi", None, 10).value.store;
    var s2 := SendMessage(s1, "C", "A", "there", Some(0), 20).value.store;
    SendCountsOncePerRecipient(s0, "C", "A", "hi", None, 10, UnreadKey("B", "C"));
    SendCountsOncePerRecipient(s1, "C", "A", "there", Some(0), 20, UnreadKey("B", "C"));
    SendCountsOncePerRecipient(s0, "C", "A", "hi", None, 10, UnreadKey("A", "C"));
    SendExtendsHistory(s0, "C", "A", "hi", None, 10, "C");
    SendExtendsHistory(s1, "C", "A", "there", Some(0), 20, "C");
    assert GetMessages(s0, "C") == [];
    assert s1.log == [s1.log[0]];
    assert s2.log == s1.log + [s2.log[1]];
  }

  /** A deleted message keeps being the conversation's last message: the summary is not
      repointed by a delete. */
  lemma DeleteKeepsSummaryScenario()
    ensures
      var s0 := Store([], map["C" := Conversation(["A", "B"], None, 0)], map[], 0);
      var s1 := SendMessage(s0, "C", "A", "hi", None, 10).value.store;
      var d := DeleteMessage(s1, 0, Some("A"));
      var denied := DeleteMessage(s1, 0, Some("B"));
      && d.store.log[0].isDeleted && d.store.log[0].content == "hi"
      && d.store.conversations["C"].lastMessage == Some(0)
      && denied.store == s1 && denied.returned == Some(s1.log[0])
  {
  }

  /** A toggles one emoji on a message twice: first the bucket is [A], then []. */
  lemma ReactionScenario()
    ensures
      var s0 := Store([], map["C" := Conversation(["A", "B"], None, 0)], map[], 0);
      var s1 := SendMessage(s0, "C", "B", "hi", None, 10).value.store;
      var s2 := AddReaction(s1, 0, Some("A"), "+1");
      var s3 := AddReaction(s2, 0, Some("A"), "+1");
      var anon := AddReaction(s1, 0, None, "+1");
      && s2.log[0].reactions == map["+1" := ["A"]]
      && s3.log[0].reactions == map["+1" := []]
      && anon == s1
  {
    var s0 := Store([], map["C" := Conversation(["A", "B"], None, 0)], map[], 0);
    var s1 := SendMessage(s0, "C", "B", "hi", None, 10).value.store;
    assert Find(s1.log, 0) == Some(0);
    assert s1.log[0].reactions == map[];
    var s2 := AddReaction(s1, 0, Some("A"), "+1");
    assert Find(s2.log, 0) == Some(0);
    var empty: ReactionMap := map[];
    var t := Toggle(empty, "+1", "A");
    assert Bucket(empty, "+1") == [];
    assert t["+1"] == ["A"];
    assert t.Keys == {"+1"};
    assert t == map["+1" := ["A"]];
    assert s2.log[0].reactions == t;
    assert RemoveAll(["A"], "A") == [] by {
      assert ["A"][1..] == [];
    }
    assert Toggle(map["+1" := ["A"]], "+1", "A") == map["+1" := []];
  }
}
