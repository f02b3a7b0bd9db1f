/**
 The unread summary: the recursive skip scan that replaces SELECT DISTINCT, the newest-row seek that
 replaces MAX, and the first-unread seek beside each unread count.

 Texts compare by code point, which is the order of their UTF-8 bytes (SQLite's BINARY collation).
 */
module UnreadCounts {
  import opened Common

  type Id = nat

  datatype Message = Message(
    kind: string,
    conversation: string,
    receivedAt: int,
    outgoing: bool,
    senderKey: Option<string>,
    senderName: Option<string>)

  datatype Channel = Channel(lastReadAt: Option<int>, muted: bool)

  datatype Db = Db(
    messages: map<Id, Message>,
    channels: map<string, Channel>,
    contacts: map<string, Option<int>>)     // last_read_at by public key

  datatype Blocks = Blocks(keys: set<string>, names: set<string>)

  // ---------------------------------------------------------------------------------------------
  // Text order and MIN()

  predicate Less(a: string, b: string)
  {
    b != [] && (a == [] || a[0] < b[0] || (a[0] == b[0] && Less(a[1..], b[1..])))
  }

  lemma {:induction false} NotLessThanItself(a: string)
    ensures !Less(a, a)
  {
    if a != [] {
      NotLessThanItself(a[1..]);
    }
  }

  lemma {:induction false} LessIsTotal(a: string, b: string)
    ensures a == b || Less(a, b) || Less(b, a)
    ensures !(Less(a, b) && Less(b, a))
  {
    if a != [] && b != [] && a[0] == b[0] {
      LessIsTotal(a[1..], b[1..]);
      assert a == [a[0]] + a[1..] && b == [b[0]] + b[1..];
    }
  }

  lemma {:induction false} LessIsTransitive(a: string, b: string, c: string)
    requires Less(a, b) && Less(b, c)
    ensures Less(a, c)
  {
    if a != [] && a[0] == b[0] && b[0] == c[0] {
      LessIsTransitive(a[1..], b[1..], c[1..]);
    }
  }

  /** x is the least text of the set. */
  predicate IsMin(s: set<string>, x: string)
  {
    x in s && forall y :: y in s ==> y == x || Less(x, y)
  }

  lemma {:induction false} MinExists(s: set<string>)
    requires s != {}
    ensures exists x :: IsMin(s, x)
  {
    var x :| x in s;
    var rest := s - {x};
    if rest == {} {
      assert s == {x};
      assert IsMin(s, x);
    } else {
      MinExists(rest);
      var m :| IsMin(rest, m);
      LessIsTotal(x, m);
      assert s == rest + {x};
      if Less(x, m) {
        forall y | y in rest && y != m
          ensures Less(x, y)
        {
          LessIsTransitive(x, m, y);
        }
        assert IsMin(s, x);
      } else {
        assert IsMin(s, m);
      }
    }
  }

  lemma MinIsUnique(s: set<string>)
    ensures forall x, y :: IsMin(s, x) && IsMin(s, y) ==> x == y
  {
    forall x, y | IsMin(s, x) && IsMin(s, y)
      ensures x == y
    {
      LessIsTotal(x, y);
    }
  }

  /** SELECT MIN(...), null over no rows */
  function Min(s: set<string>): (r: Option<string>)
    ensures r.None? <==> s == {}
    ensures r.Some? ==> IsMin(s, r.value)
  {
    if s == {} then None
    else
      MinExists(s);
      MinIsUnique(s);
      var x :| IsMin(s, x);
      Some(x)
  }

  // ---------------------------------------------------------------------------------------------
  // The skip scan

  datatype Conversation = Conversation(kind: string, key: string)

  /** SELECT DISTINCT type, conversation_key FROM messages, which the scan stands in for */
  ghost function Conversations(messages: map<Id, Message>): set<Conversation>
  {
    set i | i in messages :: Conversation(messages[i].kind, messages[i].conversation)
  }

  function Kinds(messages: map<Id, Message>): set<string>
  {
    set i | i in messages :: messages[i].kind
  }

  function Keys(messages: map<Id, Message>, kind: string): set<string>
  {
    set i | i in messages && messages[i].kind == kind :: messages[i].conversation
  }

  function Above(s: set<string>, x: string): set<string>
  {
    set y | y in s && Less(x, y)
  }

  lemma ConversationsByKind(messages: map<Id, Message>, c: Conversation)
    ensures c in Conversations(messages) <==> c.key in Keys(messages, c.kind)
    ensures c in Conversations(messages) ==> c.kind in Kinds(messages)
  {
    if i :| i in messages && messages[i].kind == c.kind && messages[i].conversation == c.key {
      assert Conversation(messages[i].kind, messages[i].conversation) == c;
    }
  }

  /** Nothing lies between a text and the next seek's answer. */
  lemma NextSeek(s: set<string>, x: string)
    ensures var n := Min(Above(s, x)); forall k :: k in s ==>
      ((k == x || Less(k, x)) <==> (n.Some? ==> Less(k, n.value)))
    ensures var n := Min(Above(s, x)); n.Some? ==> n.value in s && Less(x, n.value)
  {
    var n := Min(Above(s, x));
    forall k | k in s
      ensures (k == x || Less(k, x)) <==> (n.Some? ==> Less(k, n.value))
    {
      LessIsTotal(k, x);
      assert Less(x, k) ==> k in Above(s, x);
      if n.Some? {
        LessIsTotal(k, n.value);
        if Less(k, x) {
          LessIsTransitive(k, x, n.value);
        }
      }
    }
  }

  /** Nothing lies below the first seek's answer. */
  lemma FirstSeek(s: set<string>)
    ensures forall k :: k in s ==> Min(s).Some? && !Less(k, Min(s).value)
  {
    forall k | k in s
      ensures !Less(k, Min(s).value)
    {
      LessIsTotal(k, Min(s).value);
    }
  }

  /** What a chain of seeks has yet to yield: everything not below its next answer. */
  ghost function Unseen(s: set<string>, next: Option<string>): set<string>
  {
    set k | k in s && next.Some? && !Less(k, next.value)
  }

  lemma SeekConsumesOne(s: set<string>, x: string)
    requires x in s
    ensures x in Unseen(s, Some(x))
    ensures Unseen(s, Min(Above(s, x))) == Unseen(s, Some(x)) - {x}
  {
    NextSeek(s, x);
    NotLessThanItself(x);
  }

  predicate Distinct<T(==)>(s: seq<T>)
  {
    forall i, j :: 0 <= i < j < |s| ==> s[i] != s[j]
  }

  /** t(type): a seek for the first kind, then one for each next, until it comes back null. */
  method ScanKinds(kinds: set<string>) returns (out: seq<string>)
    ensures Distinct(out) && forall k :: k in out <==> k in kinds
  {
    out := [];
    var next := Min(kinds);
    FirstSeek(kinds);
    while next.Some?
      invariant next.Some? ==> next.value in kinds
      invariant forall k :: k in kinds <==> k in out || k in Unseen(kinds, next)
      invariant Distinct(out) && forall k :: k in out ==> k !in Unseen(kinds, next)
      decreases |Unseen(kinds, next)|
    {
      SeekConsumesOne(kinds, next.value);
      NextSeek(kinds, next.value);
      out := out + [next.value];
      next := Min(Above(kinds, next.value));
    }
  }

  // d(type, conversation_key): the queue of a recursive query, one pending seek per kind

  datatype Pending = Pending(kind: string, next: Option<string>)

  /** Conversations the pending seeks will still reach. */
  ghost function Ahead(messages: map<Id, Message>, queue: seq<Pending>): set<Conversation>
  {
    set c | c in Conversations(messages) &&
      exists p :: p in queue && p.kind == c.kind && c.key in Unseen(Keys(messages, c.kind), p.next)
  }

  ghost predicate QueueOk(messages: map<Id, Message>, queue: seq<Pending>)
  {
    && (forall i, j :: 0 <= i < j < |queue| ==> queue[i].kind != queue[j].kind)
    && (forall p :: p in queue && p.next.Some? ==> p.next.value in Keys(messages, p.kind))
  }

  /** The row at the front of the queue, and its successor for the back. */
  function Successor(messages: map<Id, Message>, p: Pending): Pending
    requires p.next.Some?
  {
    Pending(p.kind, Min(Above(Keys(messages, p.kind), p.next.value)))
  }

  lemma AdvancedQueueOk(messages: map<Id, Message>, queue: seq<Pending>)
    requires queue != [] && QueueOk(messages, queue) && queue[0].next.Some?
    ensures QueueOk(messages, queue[1..] + [Successor(messages, queue[0])])
  {
    assert queue[0] in queue;
    NextSeek(Keys(messages, queue[0].kind), queue[0].next.value);
    assert forall q :: q in queue[1..] ==> q in queue;
  }

  /** Of the front row's own kind exactly the yielded conversation leaves; other kinds are not affected. */
  lemma AdvancedAhead(messages: map<Id, Message>, queue: seq<Pending>, d: Conversation)
    requires queue != [] && QueueOk(messages, queue) && queue[0].next.Some? && d in Conversations(messages)
    ensures var p := queue[0]; var after := queue[1..] + [Successor(messages, p)];
      d in Ahead(messages, after) <==> d in Ahead(messages, queue) && d != Conversation(p.kind, p.next.value)
  {
    var p := queue[0];
    var last := Successor(messages, p);
    assert queue == [p] + queue[1..] && p in queue;
    assert forall q :: q in queue[1..] ==> q.kind != p.kind;
    assert forall q :: q in queue[1..] + [last] <==> q in queue[1..] || q == last;
    SeekConsumesOne(Keys(messages, p.kind), p.next.value);
    if d.kind == p.kind {
      ConversationsByKind(messages, d);
    }
  }

  /** A row taken from the front with its successor put at the back: exactly one conversation fewer ahead. */
  lemma AdvanceOne(messages: map<Id, Message>, queue: seq<Pending>)
    requires queue != [] && QueueOk(messages, queue) && queue[0].next.Some?
    ensures var p := queue[0]; var c := Conversation(p.kind, p.next.value);
      var after := queue[1..] + [Successor(messages, p)];
      && QueueOk(messages, after) && c in Ahead(messages, queue)
      && Ahead(messages, after) == Ahead(messages, queue) - {c}
  {
    var p := queue[0];
    var c := Conversation(p.kind, p.next.value);
    var after := queue[1..] + [Successor(messages, p)];
    AdvancedQueueOk(messages, queue);
    FrontIsAhead(messages, queue);
    forall d | d in Conversations(messages)
      ensures d in Ahead(messages, after) <==> d in Ahead(messages, queue) && d != c
    {
      AdvancedAhead(messages, queue, d);
    }
  }

  lemma FrontIsAhead(messages: map<Id, Message>, queue: seq<Pending>)
    requires queue != [] && QueueOk(messages, queue) && queue[0].next.Some?
    ensures Conversation(queue[0].kind, queue[0].next.value) in Ahead(messages, queue)
  {
    var p := queue[0];
    assert p in queue;
    ConversationsByKind(messages, Conversation(p.kind, p.next.value));
    SeekConsumesOne(Keys(messages, p.kind), p.next.value);
  }

  lemma DropFinished(messages: map<Id, Message>, queue: seq<Pending>)
    requires queue != [] && QueueOk(messages, queue) && queue[0].next.None?
    ensures QueueOk(messages, queue[1..]) && Ahead(messages, queue[1..]) == Ahead(messages, queue)
  {
    assert queue == [queue[0]] + queue[1..];
  }

  /** What is out and what is ahead share nothing and make up everything. */
  ghost predicate Halfway(messages: map<Id, Message>, out: seq<Conversation>, queue: seq<Pending>)
  {
    && QueueOk(messages, queue) && Distinct(out)
    && (forall c :: c in Conversations(messages) <==> c in out || c in Ahead(messages, queue))
    && (forall c :: c in out ==> c !in Ahead(messages, queue))
  }

  lemma OutGrows(messages: map<Id, Message>, out: seq<Conversation>, queue: seq<Pending>, c: Conversation,
                 queue': seq<Pending>)
    requires Halfway(messages, out, queue) && QueueOk(messages, queue')
    requires c in Ahead(messages, queue) && Ahead(messages, queue') == Ahead(messages, queue) - {c}
    ensures Halfway(messages, out + [c], queue') && |Ahead(messages, queue')| < |Ahead(messages, queue)|
  {
    forall d
      ensures d in out + [c] <==> d in out || d == c
    {
    }
    DistinctGrows(out, c);
  }

  lemma DistinctGrows(out: seq<Conversation>, c: Conversation)
    requires Distinct(out) && c !in out
    ensures Distinct(out + [c])
  {
  }

  method SkipScan(messages: map<Id, Message>) returns (out: seq<Conversation>)
    ensures Distinct(out) && forall c :: c in out <==> c in Conversations(messages)
  {
    var kinds := ScanKinds(Kinds(messages));
    var queue := seq(|kinds|, i requires 0 <= i < |kinds| => Pending(kinds[i], Min(Keys(messages, kinds[i]))));
    SeedCoversAll(messages, kinds, queue);
    out := [];
    while queue != []
      invariant Halfway(messages, out, queue)
      decreases |Ahead(messages, queue)|, |queue|
    {
      out, queue := ScanStep(messages, out, queue);
    }
  }

  /** Takes one row off the queue: yields it and puts its successor at the back, or drops a finished kind. */
  method ScanStep(messages: map<Id, Message>, out0: seq<Conversation>, queue0: seq<Pending>)
    returns (out: seq<Conversation>, queue: seq<Pending>)
    requires queue0 != [] && Halfway(messages, out0, queue0)
    ensures Halfway(messages, out, queue)
    ensures |Ahead(messages, queue)| < |Ahead(messages, queue0)| ||
      (|Ahead(messages, queue)| == |Ahead(messages, queue0)| && |queue| < |queue0|)
  {
    var p := queue0[0];
    if p.next.Some? {
      AdvanceOne(messages, queue0);
      out := out0 + [Conversation(p.kind, p.next.value)];
      queue := queue0[1..] + [Successor(messages, p)];
      OutGrows(messages, out0, queue0, Conversation(p.kind, p.next.value), queue);
    } else {
      DropFinished(messages, queue0);
      out, queue := out0, queue0[1..];
    }
  }

  lemma SeedCoversAll(messages: map<Id, Message>, kinds: seq<string>, queue: seq<Pending>)
    requires Distinct(kinds) && forall k :: k in kinds <==> k in Kinds(messages)
    requires |queue| == |kinds|
    requires forall i :: 0 <= i < |kinds| ==> queue[i] == Pending(kinds[i], Min(Keys(messages, kinds[i])))
    ensures QueueOk(messages, queue) && Ahead(messages, queue) == Conversations(messages)
  {
    forall c | c in Conversations(messages)
      ensures c in Ahead(messages, queue)
    {
      ConversationsByKind(messages, c);
      var i :| 0 <= i < |kinds| && kinds[i] == c.kind;
      assert queue[i] in queue;
      FirstSeek(Keys(messages, c.kind));
    }
  }

  // ---------------------------------------------------------------------------------------------
  // Seeks by (received_at, id)

  predicate Before(messages: map<Id, Message>, i: Id, j: Id)
    requires i in messages && j in messages
  {
    messages[i].receivedAt < messages[j].receivedAt || (messages[i].receivedAt == messages[j].receivedAt && i < j)
  }

  predicate IsFirst(messages: map<Id, Message>, s: set<Id>, x: Id)
    requires s <= messages.Keys
  {
    x in s && forall y :: y in s ==> y == x || Before(messages, x, y)
  }

  predicate IsLast(messages: map<Id, Message>, s: set<Id>, x: Id)
    requires s <= messages.Keys
  {
    x in s && forall y :: y in s ==> y == x || Before(messages, y, x)
  }

  lemma {:induction false} FirstExists(messages: map<Id, Message>, s: set<Id>)
    requires s <= messages.Keys && s != {}
    ensures exists x :: IsFirst(messages, s, x)
  {
    var x :| x in s;
    var rest := s - {x};
    if rest == {} {
      assert s == {x};
      assert IsFirst(messages, s, x);
    } else {
      FirstExists(messages, rest);
      var m :| IsFirst(messages, rest, m);
      assert s == rest + {x};
      assert IsFirst(messages, s, if Before(messages, x, m) then x else m);
    }
  }

  lemma {:induction false} LastExists(messages: map<Id, Message>, s: set<Id>)
    requires s <= messages.Keys && s != {}
    ensures exists x :: IsLast(messages, s, x)
  {
    var x :| x in s;
    var rest := s - {x};
    if rest == {} {
      assert s == {x};
      assert IsLast(messages, s, x);
    } else {
      LastExists(messages, rest);
      var m :| IsLast(messages, rest, m);
      assert s == rest + {x};
      assert IsLast(messages, s, if Before(messages, m, x) then x else m);
    }
  }

  /** ORDER BY received_at ASC, id ASC LIMIT 1 */
  function SeekFirst(messages: map<Id, Message>, s: set<Id>): (r: Option<Id>)
    requires s <= messages.Keys
    ensures r.None? <==> s == {}
    ensures r.Some? ==> IsFirst(messages, s, r.value)
  {
    if s == {} then None
    else
      FirstExists(messages, s);
      var x :| IsFirst(messages, s, x);
      Some(x)
  }

  /** ORDER BY received_at DESC, id DESC LIMIT 1 */
  function SeekLast(messages: map<Id, Message>, s: set<Id>): (r: Option<Id>)
    requires s <= messages.Keys
    ensures r.None? <==> s == {}
    ensures r.Some? ==> IsLast(messages, s, r.value)
  {
    if s == {} then None
    else
      LastExists(messages, s);
      var x :| IsLast(messages, s, x);
      Some(x)
  }

  // ---------------------------------------------------------------------------------------------
  // Blocked traffic, and the last message time of every conversation

  predicate Blocked(m: Message, b: Blocks)
  {
    && !m.outgoing
    && (|| (m.kind == "PRIV" && m.conversation in b.keys)
        || (m.kind == "CHAN" && m.senderKey.Some? && m.senderKey.value in b.keys)
        || (m.senderName.Some? && m.senderName.value in b.names))
  }

  /** Rows of one conversation that blocking leaves visible. */
  function Visible(messages: map<Id, Message>, b: Blocks, c: Conversation): set<Id>
  {
    set i | i in messages && messages[i].kind == c.kind && messages[i].conversation == c.key && !Blocked(messages[i], b)
  }

  /** t is MAX(received_at) over the visible rows of the conversation. */
  ghost predicate IsNewest(messages: map<Id, Message>, b: Blocks, c: Conversation, t: int)
  {
    && (exists i :: i in Visible(messages, b, c) && messages[i].receivedAt == t)
    && (forall i :: i in Visible(messages, b, c) ==> messages[i].receivedAt <= t)
  }

  /** Visible rows of a conversation, on the columns: sent ones, and received ones that no block matches. */
  lemma VisibleMeans(messages: map<Id, Message>, b: Blocks, c: Conversation, i: Id)
    ensures i in Visible(messages, b, c) <==>
      && i in messages && messages[i].kind == c.kind && messages[i].conversation == c.key
      && (!messages[i].outgoing && messages[i].kind == "PRIV" ==> messages[i].conversation !in b.keys)
      && (!messages[i].outgoing && messages[i].kind == "CHAN" && messages[i].senderKey.Some? ==>
          messages[i].senderKey.value !in b.keys)
      && (!messages[i].outgoing && messages[i].senderName.Some? ==> messages[i].senderName.value !in b.names)
  {
  }

  /** Every conversation with a visible row, with its newest time, and no other. */
  method LastMessageTimes(messages: map<Id, Message>, b: Blocks) returns (times: map<Conversation, int>)
    ensures forall c :: c in times <==> Visible(messages, b, c) != {}
    ensures forall c :: c in times ==> IsNewest(messages, b, c, times[c])
  {
    var conversations := SkipScan(messages);
    times := map[];
    var n := 0;
    while n < |conversations|
      invariant 0 <= n <= |conversations|
      invariant forall c :: c in times <==> c in conversations[..n] && Visible(messages, b, c) != {}
      invariant forall c :: c in times ==> IsNewest(messages, b, c, times[c])
    {
      var c := conversations[n];
      assert conversations[..n + 1] == conversations[..n] + [c];
      var newest := SeekLast(messages, Visible(messages, b, c));
      if newest.Some? {
        times := times[c := messages[newest.value].receivedAt];
      }
      n := n + 1;
    }
    assert conversations[..n] == conversations;
    forall c | Visible(messages, b, c) != {}
      ensures c in conversations
    {
      var i :| i in Visible(messages, b, c);
      assert Conversation(messages[i].kind, messages[i].conversation) == c;
    }
  }

  // ---------------------------------------------------------------------------------------------
  // Unread counts and the first unread message

  function ReadUntil(t: Option<int>): int
  {
    if t.Some? then t.value else 0
  }

  /** channels CROSS JOIN messages: the rows COUNT(*) sees for one channel */
  function CountedInChannel(db: Db, b: Blocks, key: string): set<Id>
  {
    set i | i in db.messages && db.messages[i].kind == "CHAN" && db.messages[i].conversation == key
      && key in db.channels && !db.messages[i].outgoing
      && db.messages[i].receivedAt > ReadUntil(db.channels[key].lastReadAt)
      && !db.channels[key].muted && !Blocked(db.messages[i], b)
  }

  /** messages LEFT JOIN contacts: a key with no contact row reads as never read */
  function LastRead(db: Db, key: string): Option<int>
  {
    if key in db.contacts then db.contacts[key] else None
  }

  /** The direct messages the contact query counts, over all conversations. */
  function CountedDirect(db: Db, b: Blocks): set<Id>
  {
    set i | i in db.messages && db.messages[i].kind == "PRIV" && !db.messages[i].outgoing
      && db.messages[i].receivedAt > ReadUntil(LastRead(db, db.messages[i].conversation))
      && !Blocked(db.messages[i], b)
  }

  function CountedWith(db: Db, b: Blocks, key: string): set<Id>
  {
    set i | i in CountedDirect(db, b) && db.messages[i].conversation == key
  }

  /** The correlated subquery's own filter. */
  function Seekable(db: Db, b: Blocks, kind: string, key: string, lastRead: Option<int>): set<Id>
  {
    set i | i in db.messages && db.messages[i].kind == kind && db.messages[i].conversation == key
      && !db.messages[i].outgoing && db.messages[i].receivedAt > ReadUntil(lastRead) && !Blocked(db.messages[i], b)
  }

  /** The keys of the result's dictionaries. */
  datatype StateKey = ChannelKey(key: string) | ContactKey(key: string)

  /** What is unread in a conversation. */
  function Counted(db: Db, b: Blocks, k: StateKey): set<Id>
  {
    match k
    case ChannelKey(key) => CountedInChannel(db, b, key)
    case ContactKey(key) => CountedWith(db, b, key)
  }

  /** Unread in a channel, on the columns: received after the last read, not blocked, channel known and not muted. */
  lemma CountedInChannelMeans(db: Db, b: Blocks, key: string, i: Id)
    ensures i in Counted(db, b, ChannelKey(key)) <==>
      && i in db.messages && key in db.channels && !db.channels[key].muted
      && db.messages[i].kind == "CHAN" && db.messages[i].conversation == key && !db.messages[i].outgoing
      && db.messages[i].receivedAt >
        (if db.channels[key].lastReadAt.Some? then db.channels[key].lastReadAt.value else 0)
      && (db.messages[i].senderKey.Some? ==> db.messages[i].senderKey.value !in b.keys)
      && (db.messages[i].senderName.Some? ==> db.messages[i].senderName.value !in b.names)
  {
  }

  /** Unread with a contact, on the columns; a key without a contact row was never read. */
  lemma CountedWithContactMeans(db: Db, b: Blocks, key: string, i: Id)
    ensures i in Counted(db, b, ContactKey(key)) <==>
      && i in db.messages && key !in b.keys
      && db.messages[i].kind == "PRIV" && db.messages[i].conversation == key && !db.messages[i].outgoing
      && db.messages[i].receivedAt >
        (if key in db.contacts && db.contacts[key].Some? then db.contacts[key].value else 0)
      && (db.messages[i].senderName.Some? ==> db.messages[i].senderName.value !in b.names)
  {
  }

  /** first_unread_id as each query asks for it. */
  function FirstUnread(db: Db, b: Blocks, k: StateKey): Option<Id>
  {
    match k
    case ChannelKey(key) =>
      if key !in db.channels then None
      else SeekFirst(db.messages, Seekable(db, b, "CHAN", key, db.channels[key].lastReadAt))
    case ContactKey(key) => SeekFirst(db.messages, Seekable(db, b, "PRIV", key, LastRead(db, key)))
  }

  /** The seek looks at exactly the rows that were counted, for every row a count query returns. */
  lemma FirstUnreadIsCounted(db: Db, b: Blocks, k: StateKey)
    requires Counted(db, b, k) != {}
    ensures Counted(db, b, k) <= db.messages.Keys
    ensures FirstUnread(db, b, k).Some? && IsFirst(db.messages, Counted(db, b, k), FirstUnread(db, b, k).value)
  {
    var lastRead := if k.ChannelKey? then db.channels[k.key].lastReadAt else LastRead(db, k.key);
    assert Seekable(db, b, if k.ChannelKey? then "CHAN" else "PRIV", k.key, lastRead) == Counted(db, b, k);
  }

  /** GROUP BY c.key */
  function ChannelRows(db: Db, b: Blocks): set<StateKey>
  {
    set key | key in db.channels && CountedInChannel(db, b, key) != {} :: ChannelKey(key)
  }

  /** GROUP BY m.conversation_key */
  function ContactRows(db: Db, b: Blocks): set<StateKey>
  {
    set i | i in CountedDirect(db, b) :: ContactKey(db.messages[i].conversation)
  }

  lemma RowsAreTheUnread(db: Db, b: Blocks, k: StateKey)
    ensures k in ChannelRows(db, b) + ContactRows(db, b) <==> Counted(db, b, k) != {}
  {
    match k {
      case ChannelKey(key) =>
        if i :| i in CountedInChannel(db, b, key) {
          assert key in db.channels;
        }
      case ContactKey(key) =>
        if i :| i in CountedWith(db, b, key) {
          assert i in CountedDirect(db, b);
        }
        if k in ContactRows(db, b) {
          var i :| i in CountedDirect(db, b) && ContactKey(db.messages[i].conversation) == k;
          assert i in CountedWith(db, b, key);
        }
    }
  }

  /** Each entry holds its count and the (received_at, id)-least row of exactly the counted set. */
  ghost predicate EntryIsRight(db: Db, b: Blocks, k: StateKey, count: nat, first: Option<Id>)
  {
    && count == |Counted(db, b, k)| && count > 0
    && first.Some? && Counted(db, b, k) <= db.messages.Keys
    && IsFirst(db.messages, Counted(db, b, k), first.value)
  }

  lemma RowIsRight(db: Db, b: Blocks, k: StateKey)
    requires Counted(db, b, k) != {}
    ensures EntryIsRight(db, b, k, |Counted(db, b, k)|, FirstUnread(db, b, k))
  {
    FirstUnreadIsCounted(db, b, k);
  }

  /** The entry's first id, on the columns: no counted row is earlier, and none at the same time has a lower id. */
  lemma FirstOnColumns(db: Db, b: Blocks, k: StateKey, count: nat, first: Option<Id>, i: Id)
    requires EntryIsRight(db, b, k, count, first) && i in Counted(db, b, k)
    ensures count == |Counted(db, b, k)| && first.Some? && first.value in Counted(db, b, k)
    ensures i in db.messages && first.value in db.messages
    ensures || db.messages[first.value].receivedAt < db.messages[i].receivedAt
      || (db.messages[first.value].receivedAt == db.messages[i].receivedAt && first.value <= i)
  {
  }

  datatype Row = Row(count: nat, first: Option<Id>)

  /** One row per group. */
  function QueryRows(db: Db, b: Blocks, groups: set<StateKey>): map<StateKey, Row>
  {
    map k | k in groups :: Row(|Counted(db, b, k)|, FirstUnread(db, b, k))
  }

  ghost function CountsOf(rows: map<StateKey, Row>, done: set<StateKey>): map<StateKey, nat>
    requires done <= rows.Keys
  {
    map k | k in done :: rows[k].count
  }

  ghost function FirstsOf(rows: map<StateKey, Row>, done: set<StateKey>): map<StateKey, Option<Id>>
    requires done <= rows.Keys
  {
    map k | k in done :: rows[k].first
  }

  lemma StoreOne(counts: map<StateKey, nat>, firsts: map<StateKey, Option<Id>>, rows: map<StateKey, Row>,
                 done: set<StateKey>, k: StateKey)
    requires done <= rows.Keys && k in rows
    ensures (counts + CountsOf(rows, done))[k := rows[k].count] == counts + CountsOf(rows, done + {k})
    ensures (firsts + FirstsOf(rows, done))[k := rows[k].first] == firsts + FirstsOf(rows, done + {k})
  {
  }

  /** The loop over one query's rows, adding to the dictionaries. */
  method StoreRows(rows: map<StateKey, Row>, counts0: map<StateKey, nat>, firsts0: map<StateKey, Option<Id>>)
    returns (counts: map<StateKey, nat>, firsts: map<StateKey, Option<Id>>)
    ensures counts == counts0 + CountsOf(rows, rows.Keys)
    ensures firsts == firsts0 + FirstsOf(rows, rows.Keys)
  {
    counts, firsts := counts0, firsts0;
    var todo := rows.Keys;
    ghost var done: set<StateKey> := {};
    while todo != {}
      invariant todo <= rows.Keys && done == rows.Keys - todo
      invariant counts == counts0 + CountsOf(rows, done) && firsts == firsts0 + FirstsOf(rows, done)
      decreases |todo|
    {
      var k :| k in todo;
      StoreOne(counts0, firsts0, rows, done, k);
      counts, firsts := counts[k := rows[k].count], firsts[k := rows[k].first];
      todo, done := todo - {k}, done + {k};
    }
    assert done == rows.Keys;
  }

  /** An entry for every conversation with something unread and no other. */
  method UnreadConversations(db: Db, b: Blocks) returns (counts: map<StateKey, nat>, firsts: map<StateKey, Option<Id>>)
    ensures forall k :: k in counts <==> Counted(db, b, k) != {}
    ensures forall k :: k in firsts <==> Counted(db, b, k) != {}
    ensures forall k :: k in counts && k in firsts ==> EntryIsRight(db, b, k, counts[k], firsts[k])
  {
    var channelRows, contactRows := QueryRows(db, b, ChannelRows(db, b)), QueryRows(db, b, ContactRows(db, b));
    counts, firsts := StoreRows(channelRows, map[], map[]);
    counts, firsts := StoreRows(contactRows, counts, firsts);
    forall k
      ensures k in counts <==> Counted(db, b, k) != {}
      ensures k in firsts <==> Counted(db, b, k) != {}
      ensures k in counts && k in firsts ==> EntryIsRight(db, b, k, counts[k], firsts[k])
    {
      StoredIsRight(db, b, counts, firsts, k);
    }
  }

  /** Two loops over query rows leave exactly the keys of both, each with a row's values. */
  lemma StoredRows(ch: map<StateKey, Row>, ct: map<StateKey, Row>, counts: map<StateKey, nat>,
                   firsts: map<StateKey, Option<Id>>, k: StateKey)
    requires counts == map[] + CountsOf(ch, ch.Keys) + CountsOf(ct, ct.Keys)
    requires firsts == map[] + FirstsOf(ch, ch.Keys) + FirstsOf(ct, ct.Keys)
    ensures k in counts <==> k in ch || k in ct
    ensures k in firsts <==> k in ch || k in ct
    ensures k in ct ==> counts[k] == ct[k].count && firsts[k] == ct[k].first
    ensures k in ch && k !in ct ==> counts[k] == ch[k].count && firsts[k] == ch[k].first
  {
  }

  lemma StoredIsRight(db: Db, b: Blocks, counts: map<StateKey, nat>, firsts: map<StateKey, Option<Id>>, k: StateKey)
    requires var ch, ct := QueryRows(db, b, ChannelRows(db, b)), QueryRows(db, b, ContactRows(db, b));
      && counts == map[] + CountsOf(ch, ch.Keys) + CountsOf(ct, ct.Keys)
      && firsts == map[] + FirstsOf(ch, ch.Keys) + FirstsOf(ct, ct.Keys)
    ensures k in counts <==> Counted(db, b, k) != {}
    ensures k in firsts <==> Counted(db, b, k) != {}
    ensures k in counts && k in firsts ==> EntryIsRight(db, b, k, counts[k], firsts[k])
  {
    StoredRows(QueryRows(db, b, ChannelRows(db, b)), QueryRows(db, b, ContactRows(db, b)), counts, firsts, k);
    RowsAreTheUnread(db, b, k);
    if Counted(db, b, k) != {} {
      RowIsRight(db, b, k);
    }
  }
}
