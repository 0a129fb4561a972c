/** The five handlers of the messages module, each one atomic state transition. */
module Messages {
  import opened Base
  import opened Reactions
  import opened Unread
  import opened Schema

  /** `msg.senderId === ctx.auth.userId`: an absent caller id owns nothing. */
  predicate IsCaller(caller: Option<UserId>, u: UserId) {
    caller == Some(u)
  }

  /** `!userId` fails: the caller id is present and not the empty string. */
  predicate SignedIn(caller: Option<UserId>) {
    caller.Some? && caller.value != ""
  }

  datatype SendError = ConversationNotFound

  /** A committed send: the new store and the id of the inserted message. */
  datatype Sent = Sent(store: Store, messageId: MessageId)

  /** `sendMessage`: insert the message, repoint the conversation summary, fan out unread
      increments. With no such conversation the handler throws and nothing is committed. */
  function SendMessage(s: Store, c: ConversationId, sender: UserId, content: string,
                       replyTo: Option<MessageId>, now: int): (r: Result<Sent, SendError>)
    ensures r.Success? <==> c in s.conversations
    ensures r.Failure? ==> r.error == ConversationNotFound
    // exactly one message is appended and no earlier message changes
    ensures r.Success? ==>
      |r.value.store.log| == |s.log| + 1 && r.value.store.log[..|s.log|] == s.log
    ensures r.Success? ==>
      var m := r.value.store.log[|s.log|];
      && m.id == r.value.messageId
      && m.conversationId == c && m.senderId == sender && m.content == content
      && m.replyTo == replyTo && m.timestamp == now
      && !m.isDeleted && m.reactions == map[]
    // the id is fresh: larger than every id handed out before
    ensures r.Success? ==> r.value.messageId == s.nextId < r.value.store.nextId
    // the conversation summary points at the new message; no other conversation changes
    ensures r.Success? ==> r.value.store.conversations.Keys == s.conversations.Keys
    ensures r.Success? ==>
      var conv := r.value.store.conversations[c];
      && conv.lastMessage == Some(r.value.messageId)
      && conv.updatedAt == now
      && conv.participants == s.conversations[c].participants
    ensures r.Success? ==> forall c' :: c' in s.conversations && c' != c ==>
      r.value.store.conversations[c'] == s.conversations[c']
    // every participant but the sender gets one more unread message; no other counter moves
    ensures r.Success? ==>
      FannedOut(s.unread, r.value.store.unread, s.conversations[c].participants, sender, c)
  {
    if c !in s.conversations then Failure(ConversationNotFound)
    else
      var id := s.nextId;
      var m := Message(id, c, sender, content, replyTo, now, false, map[]);
      var conv := s.conversations[c];
      var conv' := conv.(lastMessage := Some(id), updatedAt := now);
      var unread' := FanOut(s.unread, conv.participants, sender, c);
      var s' := Store(s.log + [m], s.conversations[c := conv'], unread', id + 1);
      assert s'.log[..|s.log|] == s.log;
      Success(Sent(s', id))
  }

  /** `getMessages`: the conversation's messages in ascending creation order, soft-deleted ones included. */
  function GetMessages(s: Store, c: ConversationId): (r: seq<Message>)
    ensures forall m :: m in r <==> m in s.log && m.conversationId == c
    ensures Valid(s) ==> IdsIncreasing(r)
    ensures TimestampsSorted(s.log) ==> TimestampsSorted(r)
  {
    Project(s.log, c)
  }

  /** The store after a delete and what the handler hands back. */
  datatype Deleted = Deleted(store: Store, returned: Option<Message>)

  /** `deleteMessage`: owner-only soft delete; returns the message as stored afterwards. */
  function DeleteMessage(s: Store, id: MessageId, caller: Option<UserId>): (r: Deleted)
    ensures match Find(s.log, id)
      case None => r.store == s && r.returned == None
      case Some(i) =>
        && |r.store.log| == |s.log|
        && r.returned == Some(r.store.log[i])
        && (IsCaller(caller, s.log[i].senderId) ==>
              && r.store.log[i].isDeleted
              && AgreeExcept(s.log[i], r.store.log[i], DeletedField)
              && (forall j :: 0 <= j < |s.log| && j != i ==> r.store.log[j] == s.log[j])
              && r.store.conversations == s.conversations
              && r.store.unread == s.unread
              && r.store.nextId == s.nextId)
        && (!IsCaller(caller, s.log[i].senderId) ==> r.store == s)
  {
    match Find(s.log, id)
    case None => Deleted(s, None)
    case Some(i) =>
      var msg := s.log[i];
      var s' := if IsCaller(caller, msg.senderId) then Patch(s, i, msg.(isDeleted := true)) else s;
      Deleted(s', Some(s'.log[i]))
  }

  /** `updateMessage`: owner-only edit of the content. */
  function UpdateMessage(s: Store, id: MessageId, caller: Option<UserId>, content: string): (s': Store)
    ensures match Find(s.log, id)
      case None => s' == s
      case Some(i) =>
        && (IsCaller(caller, s.log[i].senderId) ==>
              && |s'.log| == |s.log|
              && s'.log[i].content == content
              && AgreeExcept(s.log[i], s'.log[i], ContentField)
              && (forall j :: 0 <= j < |s.log| && j != i ==> s'.log[j] == s.log[j])
              && s'.conversations == s.conversations
              && s'.unread == s.unread
              && s'.nextId == s.nextId)
        && (!IsCaller(caller, s.log[i].senderId) ==> s' == s)
  {
    match Find(s.log, id)
    case None => s
    case Some(i) =>
      var msg := s.log[i];
      if IsCaller(caller, msg.senderId) then Patch(s, i, msg.(content := content)) else s
  }

  /** `addReaction`: toggle the caller in one emoji bucket of the message. */
  function AddReaction(s: Store, id: MessageId, caller: Option<UserId>, emoji: Emoji): (s': Store)
    ensures Find(s.log, id).None? || !SignedIn(caller) ==> s' == s
    ensures Find(s.log, id).Some? && SignedIn(caller) ==>
      var i := Find(s.log, id).value;
      && |s'.log| == |s.log|
      && AgreeExcept(s.log[i], s'.log[i], ReactionsField)
      && s'.log[i].reactions == Toggle(s.log[i].reactions, emoji, caller.value)
      && (forall j :: 0 <= j < |s.log| && j != i ==> s'.log[j] == s.log[j])
      && s'.conversations == s.conversations
      && s'.unread == s.unread
      && s'.nextId == s.nextId
  {
    match Find(s.log, id)
    case None => s
    case Some(i) =>
      if !SignedIn(caller) then s
      else
        var msg := s.log[i];
        Patch(s, i, msg.(reactions := Toggle(msg.reactions, emoji, caller.value)))
  }
}
