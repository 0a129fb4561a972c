/** The three tables the message mutations touch, held as one immutable store. */
module Schema {
  import opened Base
  import opened Reactions
  import opened Unread

  /** A row of the `messages` table. */
  datatype Message = Message(
    id: MessageId,
    conversationId: ConversationId,
    senderId: UserId,
    content: string,
    replyTo: Option<MessageId>,
    timestamp: int,
    isDeleted: bool,
    reactions: ReactionMap)

  /** The part of a `conversations` row the message mutations read or patch. */
  datatype Conversation = Conversation(
    participants: seq<UserId>,
    lastMessage: Option<MessageId>,
    updatedAt: int)

  /** `log` is the messages table in insertion order; `nextId` is the next id the store hands out. */
  datatype Store = Store(
    log: seq<Message>,
    conversations: map<ConversationId, Conversation>,
    unread: UnreadMap,
    nextId: MessageId)

  /** Every id already handed out is below `nextId`, and ids grow with insertion order. */
  ghost predicate Valid(s: Store) {
    && IdsIncreasing(s.log)
    && (forall i :: 0 <= i < |s.log| ==> s.log[i].id < s.nextId)
  }

  /** `ctx.db.get(id)`: the position of the message with that id, if any. */
  function Find(log: seq<Message>, id: MessageId): (r: Option<nat>)
    ensures r.Some? ==> r.value < |log| && log[r.value].id == id
    ensures r.Some? ==> forall j :: 0 <= j < r.value ==> log[j].id != id
    ensures r.None? <==> forall j :: 0 <= j < |log| ==> log[j].id != id
  {
    if log == [] then None
    else if log[0].id == id then Some(0)
    else match Find(log[1..], id)
      case None => None
      case Some(i) => Some(i + 1)
  }

  /** The field a patch is allowed to change. */
  datatype Field = ContentField | DeletedField | ReactionsField

  /** `m'` agrees with `m` on every field except possibly `f`. */
  predicate AgreeExcept(m: Message, m': Message, f: Field) {
    && m'.id == m.id
    && m'.conversationId == m.conversationId
    && m'.senderId == m.senderId
    && m'.replyTo == m.replyTo
    && m'.timestamp == m.timestamp
    && (f != ContentField ==> m'.content == m.content)
    && (f != DeletedField ==> m'.isDeleted == m.isDeleted)
    && (f != ReactionsField ==> m'.reactions == m.reactions)
  }

  /** `ctx.db.patch` on a message: the row at `i` is replaced in place, nothing else moves. */
  function Patch(s: Store, i: nat, m: Message): (s': Store)
    requires i < |s.log|
    ensures |s'.log| == |s.log| && s'.log[i] == m
    ensures forall j :: 0 <= j < |s.log| && j != i ==> s'.log[j] == s.log[j]
    ensures s'.conversations == s.conversations && s'.unread == s.unread && s'.nextId == s.nextId
  {
    s.(log := s.log[i := m])
  }

  /** Two logs that hold the same ids in the same conversations at the same positions. */
  ghost predicate SameShape(a: seq<Message>, b: seq<Message>) {
    && |a| == |b|
    && forall i :: 0 <= i < |a| ==> a[i].id == b[i].id && a[i].conversationId == b[i].conversationId
  }

  predicate IdsIncreasing(xs: seq<Message>) {
    forall i, j :: 0 <= i < j < |xs| ==> xs[i].id < xs[j].id
  }

  predicate TimestampsSorted(xs: seq<Message>) {
    forall i, j :: 0 <= i < j < |xs| ==> xs[i].timestamp <= xs[j].timestamp
  }

  /** The `by_conversation` index scanned in ascending creation order. */
  function Project(log: seq<Message>, c: ConversationId): (r: seq<Message>)
    ensures forall m :: m in r <==> m in log && m.conversationId == c
    ensures |r| <= |log|
    ensures IdsIncreasing(log) ==> IdsIncreasing(r)
    ensures TimestampsSorted(log) ==> TimestampsSorted(r)
  {
    if log == [] then []
    else
      var rest := Project(log[1..], c);
      if log[0].conversationId == c then
        ProjectHeadFirst(log, rest);
        [log[0]] + rest
      else rest
  }

  /** Putting the head of the log in front of a projection of its tail keeps both orders. */
  lemma ProjectHeadFirst(log: seq<Message>, rest: seq<Message>)
    requires log != []
    requires forall m :: m in rest ==> m in log[1..]
    requires IdsIncreasing(log[1..]) ==> IdsIncreasing(rest)
    requires TimestampsSorted(log[1..]) ==> TimestampsSorted(rest)
    ensures IdsIncreasing(log) ==> IdsIncreasing([log[0]] + rest)
    ensures TimestampsSorted(log) ==> TimestampsSorted([log[0]] + rest)
  {
    var r := [log[0]] + rest;
    forall j | 0 < j < |r|
      ensures exists k :: 0 < k < |log| && r[j] == log[k]
    {
      assert r[j] == rest[j - 1];
      assert rest[j - 1] in log[1..];
      var k :| 0 <= k < |log[1..]| && log[1..][k] == rest[j - 1];
      assert log[k + 1] == r[j];
    }
    if IdsIncreasing(log) {
      assert IdsIncreasing(log[1..]);
      forall i, j | 0 <= i < j < |r| ensures r[i].id < r[j].id {
        if i > 0 {
          assert r[i] == rest[i - 1] && r[j] == rest[j - 1];
        } else {
          var k :| 0 < k < |log| && r[j] == log[k];
        }
      }
    }
    if TimestampsSorted(log) {
      assert TimestampsSorted(log[1..]);
      forall i, j | 0 <= i < j < |r| ensures r[i].timestamp <= r[j].timestamp {
        if i > 0 {
          assert r[i] == rest[i - 1] && r[j] == rest[j - 1];
        } else {
          var k :| 0 < k < |log| && r[j] == log[k];
        }
      }
    }
  }

  /** Projecting a concatenation projects each part. */
  lemma {:induction false} ProjectAppend(a: seq<Message>, b: seq<Message>, c: ConversationId)
    ensures Project(a + b, c) == Project(a, c) + Project(b, c)
  {
    if a == [] {
      assert a + b == b;
    } else {
      assert (a + b)[0] == a[0];
      assert (a + b)[1..] == a[1..] + b;
      ProjectAppend(a[1..], b, c);
    }
  }

  /** Logs of the same shape project to lists of the same shape. */
  lemma {:induction false} ProjectSameShape(a: seq<Message>, b: seq<Message>, c: ConversationId)
    requires SameShape(a, b)
    ensures SameShape(Project(a, c), Project(b, c))
  {
    if a != [] {
      SameShapeTail(a, b);
      ProjectSameShape(a[1..], b[1..], c);
      if a[0].conversationId == c {
        SameShapeCons(a[0], b[0], Project(a[1..], c), Project(b[1..], c));
      }
    }
  }

  lemma SameShapeTail(a: seq<Message>, b: seq<Message>)
    requires SameShape(a, b) && a != []
    ensures SameShape(a[1..], b[1..])
  {
    forall i | 0 <= i < |a[1..]|
      ensures a[1..][i].id == b[1..][i].id && a[1..][i].conversationId == b[1..][i].conversationId
    {
      assert a[1..][i] == a[i + 1] && b[1..][i] == b[i + 1];
    }
  }

  lemma SameShapeCons(x: Message, y: Message, a: seq<Message>, b: seq<Message>)
    requires x.id == y.id && x.conversationId == y.conversationId
    requires SameShape(a, b)
    ensures SameShape([x] + a, [y] + b)
  {
    var xa := [x] + a;
    var yb := [y] + b;
    forall i | 0 < i < |xa|
      ensures xa[i].id == yb[i].id && xa[i].conversationId == yb[i].conversationId
    {
      assert xa[i] == a[i - 1] && yb[i] == b[i - 1];
    }
  }

  /** Logs of the same shape find the same position for every id. */
  lemma FindSameShape(a: seq<Message>, b: seq<Message>, id: MessageId)
    requires SameShape(a, b)
    ensures Find(a, id) == Find(b, id)
  {
  }
}
