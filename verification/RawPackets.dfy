/**
 The raw packet table, its payload-based deduplication, and the incrementally maintained count of
 packets that have no linked message.
 */
module RawPackets {
  import opened Common
  import PacketFrame

  type Id = nat
  type Digest = seq<int>

  datatype Row = Row(timestamp: int, digest: Digest, message: Option<Id>)

  /** Committed contents. Ids are never reused. */
  datatype Table = Table(rows: map<Id, Row>, nextId: Id)

  function Undecrypted(rows: map<Id, Row>): set<Id>
  {
    set i | i in rows && rows[i].message.None?
  }

  function OldUndecrypted(rows: map<Id, Row>, cutoff: int): set<Id>
  {
    set i | i in rows && rows[i].message.None? && rows[i].timestamp < cutoff
  }

  function LinkedTo(rows: map<Id, Row>, message: Id): set<Id>
  {
    set i | i in rows && rows[i].message == Some(message)
  }

  function Linked(rows: map<Id, Row>): set<Id>
  {
    set i | i in rows && rows[i].message.Some?
  }

  /** SELECT COUNT(*) ... WHERE message_id IS NULL */
  function Count(t: Table): nat
  {
    |Undecrypted(t.rows)|
  }

  ghost predicate WellFormed(t: Table)
  {
    && (forall i :: i in t.rows ==> i < t.nextId)
    && (forall i, j :: i in t.rows && j in t.rows && t.rows[i].digest == t.rows[j].digest ==> i == j)
  }

  // ---------------------------------------------------------------------------------------------
  // The writes, as transactions on the table

  datatype Write =
    | Insert(timestamp: int, digest: Digest)
    | Link(packet: Id, message: Id)
    | Prune(cutoff: int)
    | PurgeLinked
    | DeleteMessage(message: Id)
    | Recount

  predicate HasDigest(t: Table, d: Digest)
  {
    exists i :: i in t.rows && t.rows[i].digest == d
  }

  function Commit(t: Table, w: Write): Table
  {
    match w
    case Insert(ts, d) =>
      if HasDigest(t, d) then t else Table(t.rows[t.nextId := Row(ts, d, None)], t.nextId + 1)
    case Link(p, m) =>
      if p in t.rows then t.(rows := t.rows[p := t.rows[p].(message := Some(m))]) else t
    case Prune(cutoff) =>
      t.(rows := t.rows - OldUndecrypted(t.rows, cutoff))
    case PurgeLinked =>
      t.(rows := t.rows - Linked(t.rows))
    case DeleteMessage(m) =>
      t.(rows := Unlink(t.rows, m))
    case Recount => t
  }

  function Unlink(rows: map<Id, Row>, message: Id): map<Id, Row>
  {
    map i | i in rows :: if rows[i].message == Some(message) then rows[i].(message := None) else rows[i]
  }

  /** What each operation adds to the cached count, computed from the affected-row counts it sees. */
  function Delta(t: Table, w: Write): int
  {
    match w
    case Insert(_, d) => if HasDigest(t, d) then 0 else 1
    case Link(p, _) => if p in t.rows && t.rows[p].message.None? then -1 else 0
    case Prune(cutoff) => -|OldUndecrypted(t.rows, cutoff)|
    case PurgeLinked => 0
    case DeleteMessage(m) => |LinkedTo(t.rows, m)|
    case Recount => 0
  }

  lemma CommitKeepsWellFormed(t: Table, w: Write)
    requires WellFormed(t)
    ensures WellFormed(Commit(t, w))
  {
  }

  lemma InsertIsExact(t: Table, timestamp: int, digest: Digest)
    requires WellFormed(t) && !HasDigest(t, digest)
    ensures Count(Commit(t, Insert(timestamp, digest))) == Count(t) + 1
  {
    var rows := t.rows[t.nextId := Row(timestamp, digest, None)];
    assert t.nextId !in Undecrypted(t.rows);
    assert Undecrypted(rows) == Undecrypted(t.rows) + {t.nextId};
  }

  lemma LinkIsExact(t: Table, packet: Id, message: Id)
    requires packet in t.rows
    ensures Count(Commit(t, Link(packet, message))) == Count(t) + Delta(t, Link(packet, message))
  {
    var rows := t.rows[packet := t.rows[packet].(message := Some(message))];
    assert Undecrypted(rows) == Undecrypted(t.rows) - {packet};
  }

  lemma PruneIsExact(t: Table, cutoff: int)
    ensures Count(Commit(t, Prune(cutoff))) == Count(t) + Delta(t, Prune(cutoff))
  {
    var before, after := Undecrypted(t.rows), Undecrypted(Commit(t, Prune(cutoff)).rows);
    assert before == after + OldUndecrypted(t.rows, cutoff);
  }

  lemma DeleteMessageIsExact(t: Table, m: Id)
    ensures Count(Commit(t, DeleteMessage(m))) == Count(t) + Delta(t, DeleteMessage(m))
  {
    var before, after := Undecrypted(t.rows), Undecrypted(Commit(t, DeleteMessage(m)).rows);
    assert after == before + LinkedTo(t.rows, m);
  }

  /** The affected-row arithmetic is exact for every write. */
  lemma DeltaIsExact(t: Table, w: Write)
    requires WellFormed(t)
    ensures Count(Commit(t, w)) == Count(t) + Delta(t, w)
  {
    match w
    case Insert(timestamp, digest) =>
      if !HasDigest(t, digest) {
        InsertIsExact(t, timestamp, digest);
      }
    case Link(packet, message) =>
      if packet in t.rows {
        LinkIsExact(t, packet, message);
      }
    case Prune(cutoff) => PruneIsExact(t, cutoff);
    case PurgeLinked => assert Undecrypted(Commit(t, w).rows) == Undecrypted(t.rows);
    case DeleteMessage(m) => DeleteMessageIsExact(t, m);
    case Recount =>
  }

  // ---------------------------------------------------------------------------------------------
  // Interleaving: writers queue on one lock; the cache is adjusted after the lock is given back,
  // but before anything else can run

  type TaskId = nat

  datatype Pc =
    | Done
    | Waiting(write: Write)
    | InTransaction(write: Write)
    | Executed(write: Write, pending: Table, delta: int)  // statements run, not yet committed
    | Committed(write: Write, delta: int)                 // commit finished, lock still held

  datatype State = State(table: Table, cached: Option<int>, lock: Option<TaskId>, tasks: seq<Pc>)

  datatype Event =
    | Request(write: Write)      // a count request is served from the cache when there is one
    | Granted(t: TaskId)
    | Execute(t: TaskId)
    | CommitDone(t: TaskId)
    | Rollback(t: TaskId)
    | Leave(t: TaskId)           // release the lock, adjust the cache, return

  function Init(table: Table): State
  {
    State(table, None, None, [])
  }

  predicate Enabled(s: State, e: Event)
  {
    match e
    case Request(_) => true
    case Granted(t) => t < |s.tasks| && s.tasks[t].Waiting? && s.lock.None?
    case Execute(t) => t < |s.tasks| && s.tasks[t].InTransaction?
    case CommitDone(t) => t < |s.tasks| && s.tasks[t].Executed?
    case Rollback(t) => t < |s.tasks| && (s.tasks[t].InTransaction? || s.tasks[t].Executed?)
    case Leave(t) => t < |s.tasks| && s.tasks[t].Committed?
  }

  function Apply(s: State, e: Event): State
    requires Enabled(s, e)
  {
    match e
    case Request(w) =>
      s.(tasks := s.tasks + [if w.Recount? && s.cached.Some? then Done else Waiting(w)])
    case Granted(t) =>
      s.(lock := Some(t), tasks := s.tasks[t := InTransaction(s.tasks[t].write)])
    case Execute(t) =>
      var w := s.tasks[t].write;
      // A recount stores its result at once, still inside its own transaction.
      var cached := if w.Recount? then Some(Count(s.table)) else s.cached;
      s.(cached := cached, tasks := s.tasks[t := Executed(w, Commit(s.table, w), Delta(s.table, w))])
    case CommitDone(t) =>
      var pc := s.tasks[t];
      s.(table := pc.pending, tasks := s.tasks[t := Committed(pc.write, pc.delta)])
    case Rollback(t) =>
      s.(lock := None, tasks := s.tasks[t := Done])
    case Leave(t) =>
      s.(lock := None, tasks := s.tasks[t := Done],
         cached := if s.cached.Some? then Some(s.cached.value + s.tasks[t].delta) else None)
  }

  predicate Holding(pc: Pc)
  {
    pc.InTransaction? || pc.Executed? || pc.Committed?
  }

  /** How far the cache lags behind the table because of the lock holder. */
  function Lag(s: State): int
  {
    if s.lock.Some? && s.lock.value < |s.tasks| && s.tasks[s.lock.value].Committed?
    then s.tasks[s.lock.value].delta else 0
  }

  ghost predicate Inv(s: State)
  {
    && WellFormed(s.table)
    && (s.lock.Some? ==> s.lock.value < |s.tasks|)
    && (forall t: TaskId :: t < |s.tasks| ==> (Holding(s.tasks[t]) <==> s.lock == Some(t)))
    && (forall t: TaskId :: t < |s.tasks| && s.tasks[t].Executed? ==>
          s.tasks[t].pending == Commit(s.table, s.tasks[t].write) &&
          s.tasks[t].delta == Delta(s.table, s.tasks[t].write))
    && (s.cached.Some? ==> s.cached.value + Lag(s) == Count(s.table))
  }

  lemma StepKeepsInv(s: State, e: Event)
    requires Inv(s) && Enabled(s, e)
    ensures Inv(Apply(s, e))
  {
    if e.CommitDone? {
      CommitKeepsWellFormed(s.table, s.tasks[e.t].write);
      DeltaIsExact(s.table, s.tasks[e.t].write);
    }
  }

  ghost predicate ValidRun(s: State, es: seq<Event>)
    decreases |es|
  {
    es == [] || (Enabled(s, es[0]) && ValidRun(Apply(s, es[0]), es[1..]))
  }

  ghost function After(s: State, es: seq<Event>): State
    requires ValidRun(s, es)
    decreases |es|
  {
    if es == [] then s else After(Apply(s, es[0]), es[1..])
  }

  lemma {:induction false} RunKeepsInv(s: State, es: seq<Event>)
    requires Inv(s) && ValidRun(s, es)
    ensures Inv(After(s, es))
    decreases |es|
  {
    if es != [] {
      StepKeepsInv(s, es[0]);
      RunKeepsInv(Apply(s, es[0]), es[1..]);
    }
  }

  /** A write does get through: with the lock free, five steps take it from the request to its committed effect. */
  lemma WriteGetsThrough(s: State, w: Write)
    requires Inv(s) && s.lock.None? && !(w.Recount? && s.cached.Some?)
    ensures var t := |s.tasks|; var es := [Request(w), Granted(t), Execute(t), CommitDone(t), Leave(t)];
      && ValidRun(s, es)
      && var end := After(s, es);
        && end.table == Commit(s.table, w) && end.lock.None? && end.tasks == s.tasks + [Done]
        && (w.Recount? ==> end.cached == Some(Count(s.table)))
        && (!w.Recount? && s.cached.Some? ==> end.cached == Some(Count(end.table)))
        && (!w.Recount? && s.cached.None? ==> end.cached.None?)
  {
    var t := |s.tasks|;
    var s1, s2, s3, s4, s5 := WriteSteps(s, w);
    assert ValidRun(s5, []) && After(s5, []) == s5;
    Prepend(s4, Leave(t), []);
    Prepend(s3, CommitDone(t), [Leave(t)]);
    Prepend(s2, Execute(t), [CommitDone(t), Leave(t)]);
    Prepend(s1, Granted(t), [Execute(t), CommitDone(t), Leave(t)]);
    Prepend(s, Request(w), [Granted(t), Execute(t), CommitDone(t), Leave(t)]);
    assert [Request(w)] + [Granted(t), Execute(t), CommitDone(t), Leave(t)] ==
      [Request(w), Granted(t), Execute(t), CommitDone(t), Leave(t)];
    assert [Granted(t)] + [Execute(t), CommitDone(t), Leave(t)] == [Granted(t), Execute(t), CommitDone(t), Leave(t)];
    assert [Execute(t)] + [CommitDone(t), Leave(t)] == [Execute(t), CommitDone(t), Leave(t)];
    assert [CommitDone(t)] + [Leave(t)] == [CommitDone(t), Leave(t)] && [Leave(t)] + [] == [Leave(t)];
  }

  lemma Prepend(s: State, e: Event, es: seq<Event>)
    requires Enabled(s, e) && ValidRun(Apply(s, e), es)
    ensures ValidRun(s, [e] + es) && After(s, [e] + es) == After(Apply(s, e), es)
  {
    assert ([e] + es)[1..] == es;
  }

  /** The states on the way of one write. */
  lemma WriteSteps(s: State, w: Write) returns (s1: State, s2: State, s3: State, s4: State, s5: State)
    requires Inv(s) && s.lock.None? && !(w.Recount? && s.cached.Some?)
    ensures var t := |s.tasks|;
      && s1 == Apply(s, Request(w))
      && Enabled(s1, Granted(t)) && s2 == Apply(s1, Granted(t))
      && Enabled(s2, Execute(t)) && s3 == Apply(s2, Execute(t))
      && Enabled(s3, CommitDone(t)) && s4 == Apply(s3, CommitDone(t))
      && Enabled(s4, Leave(t)) && s5 == Apply(s4, Leave(t))
    ensures s5.table == Commit(s.table, w) && s5.lock.None? && s5.tasks == s.tasks + [Done]
    ensures w.Recount? ==> s5.cached == Some(Count(s.table))
    ensures !w.Recount? && s.cached.Some? ==> s5.cached == Some(Count(s5.table))
    ensures !w.Recount? && s.cached.None? ==> s5.cached.None?
  {
    var t := |s.tasks|;
    DeltaIsExact(s.table, w);
    s1 := s.(tasks := s.tasks + [Waiting(w)]);
    s2 := s1.(lock := Some(t), tasks := s.tasks + [InTransaction(w)]);
    assert s1.tasks[t := InTransaction(w)] == s2.tasks;
    s3 := ExecuteStep(s2, s.tasks, w);
    s4 := s3.(table := Commit(s.table, w), tasks := s.tasks + [Committed(w, Delta(s.table, w))]);
    assert s3.tasks[t := Committed(w, Delta(s.table, w))] == s4.tasks;
    s5 := Apply(s4, Leave(t));
    assert s4.tasks[t := Done] == s.tasks + [Done];
  }

  lemma ExecuteStep(s2: State, tasks: seq<Pc>, w: Write) returns (s3: State)
    requires s2.tasks == tasks + [InTransaction(w)]
    ensures Enabled(s2, Execute(|tasks|)) && s3 == Apply(s2, Execute(|tasks|))
    ensures s3 == s2.(cached := if w.Recount? then Some(Count(s2.table)) else s2.cached,
      tasks := tasks + [Executed(w, Commit(s2.table, w), Delta(s2.table, w))])
  {
    s3 := Apply(s2, Execute(|tasks|));
    assert s2.tasks[|tasks| := Executed(w, Commit(s2.table, w), Delta(s2.table, w))] ==
      tasks + [Executed(w, Commit(s2.table, w), Delta(s2.table, w))];
  }

  /** In every interleaving, whenever no transaction is open the cached count is the real count. */
  lemma CachedCountIsExact(table: Table, es: seq<Event>)
    requires WellFormed(table) && ValidRun(Init(table), es)
    ensures var s := After(Init(table), es);
      s.lock.None? && s.cached.Some? ==> s.cached.value == Count(s.table)
  {
    RunKeepsInv(Init(table), es);
  }

  /** Even during a transaction the cache is off by at most what that one transaction changed. */
  lemma CachedCountLagsOneWrite(table: Table, es: seq<Event>)
    requires WellFormed(table) && ValidRun(Init(table), es)
    ensures var s := After(Init(table), es);
      s.cached.Some? ==> s.cached.value + Lag(s) == Count(s.table) && (Lag(s) != 0 ==> s.lock.Some?)
  {
    RunKeepsInv(Init(table), es);
  }

  // Any sequence of creates

  /** Each id names the row of its digest. */
  ghost predicate Named(t: Table, ids: seq<Id>, digests: seq<Digest>)
  {
    |ids| == |digests| && forall i :: 0 <= i < |ids| ==> ids[i] in t.rows && t.rows[ids[i]].digest == digests[i]
  }

  ghost predicate Kept(t0: Table, t: Table)
  {
    forall r :: r in t0.rows ==> r in t.rows && t.rows[r] == t0.rows[r]
  }

  ghost predicate Grown(t0: Table, t: Table, ids: seq<Id>)
  {
    forall r :: r in t.rows ==> r in t0.rows || r in ids
  }

  lemma NamedStep(t0: Table, before: Table, after: Table, ids: seq<Id>, digests: seq<Digest>, id: Id)
    requires |ids| < |digests| && Named(before, ids, digests[..|ids|]) && Kept(t0, before) && Grown(t0, before, ids)
    requires Kept(before, after) && Grown(before, after, [id])
    requires id in after.rows && after.rows[id].digest == digests[|ids|]
    ensures Named(after, ids + [id], digests[..|ids| + 1]) && Kept(t0, after) && Grown(t0, after, ids + [id])
  {
    forall r | r in after.rows
      ensures r in t0.rows || r in ids + [id]
    {
      if r in ids {
        assert r in ids + [id];
      }
    }
  }

  /** One row per distinct digest. */
  lemma SameRowExactlyForSameDigest(t: Table, ids: seq<Id>, digests: seq<Digest>)
    requires WellFormed(t) && Named(t, ids, digests)
    ensures forall i, j :: 0 <= i < |ids| && 0 <= j < |ids| ==> (ids[i] == ids[j] <==> digests[i] == digests[j])
  {
  }

  // ---------------------------------------------------------------------------------------------
  // The repository object: each call is one transaction followed by its cache adjustment

  class PacketRepository {
    var table: Table
    var cached: Option<int>

    ghost predicate Valid()
      reads this
    {
      WellFormed(table) && (cached.Some? ==> cached.value == Count(table))
    }

    constructor ()
      ensures Valid() && table == Table(map[], 0) && cached == None
    {
      table, cached := Table(map[], 0), None;
    }

    method AdjustUndecryptedCount(delta: int)
      modifies this`cached
      ensures cached == if old(cached).Some? then Some(old(cached).value + delta) else None
    {
      if cached.Some? {
        cached := Some(cached.value + delta);
      }
    }

    /** Stores a packet unless one with the same digest is stored already; either way names its row. */
    method Create(data: PacketFrame.Bytes, timestamp: int, sha: PacketFrame.Bytes -> Digest)
      returns (id: Id, isNew: bool)
      requires Valid()
      modifies this
      ensures Valid() && table == Commit(old(table), Insert(timestamp, sha(PacketFrame.DedupBytes(data))))
      ensures id in table.rows && table.rows[id].digest == sha(PacketFrame.DedupBytes(data))
      ensures isNew <==> !HasDigest(old(table), sha(PacketFrame.DedupBytes(data)))
      ensures !isNew ==> table == old(table)
      ensures isNew ==> id !in old(table).rows && table.rows == old(table).rows[id := table.rows[id]]
      ensures isNew ==> table.rows[id].timestamp == timestamp && table.rows[id].message.None?
      ensures isNew <==> forall i :: i in old(table).rows ==>
        old(table).rows[i].digest != sha(PacketFrame.DedupBytes(data))
    {
      var digest := sha(PacketFrame.DedupBytes(data));
      DeltaIsExact(table, Insert(timestamp, digest));
      CommitKeepsWellFormed(table, Insert(timestamp, digest));
      if i :| i in table.rows && table.rows[i].digest == digest {
        return i, false;
      }
      id, isNew := table.nextId, true;
      table := Table(table.rows[id := Row(timestamp, digest, None)], id + 1);
      AdjustUndecryptedCount(1);
    }

    method MarkDecrypted(packet: Id, message: Id)
      requires Valid()
      modifies this
      ensures Valid() && table == Commit(old(table), Link(packet, message))
      ensures table.rows.Keys == old(table).rows.Keys
      ensures packet in table.rows ==> table.rows[packet] == old(table).rows[packet].(message := Some(message))
      ensures forall i :: i in table.rows && i != packet ==> table.rows[i] == old(table).rows[i]
    {
      DeltaIsExact(table, Link(packet, message));
      CommitKeepsWellFormed(table, Link(packet, message));
      var newlyLinked := 0;
      if packet in table.rows && table.rows[packet].message.None? {
        table := table.(rows := table.rows[packet := table.rows[packet].(message := Some(message))]);
        newlyLinked := 1;
      }
      if newlyLinked == 0 && packet in table.rows {
        table := table.(rows := table.rows[packet := table.rows[packet].(message := Some(message))]);
      }
      AdjustUndecryptedCount(-newlyLinked);
    }

    method PruneOldUndecrypted(cutoff: int) returns (deleted: nat)
      requires Valid()
      modifies this
      ensures Valid() && table == Commit(old(table), Prune(cutoff))
      ensures forall i :: i in table.rows <==>
        (i in old(table).rows && (old(table).rows[i].message.Some? || old(table).rows[i].timestamp >= cutoff))
      ensures forall i :: i in table.rows ==> table.rows[i] == old(table).rows[i]
      ensures deleted == Count(old(table)) - Count(table)
    {
      DeltaIsExact(table, Prune(cutoff));
      CommitKeepsWellFormed(table, Prune(cutoff));
      var doomed := OldUndecrypted(table.rows, cutoff);
      table := table.(rows := table.rows - doomed);
      deleted := |doomed|;
      AdjustUndecryptedCount(0 - deleted);
    }

    method PurgeLinkedToMessages() returns (deleted: nat)
      requires Valid()
      modifies this
      ensures Valid() && table == Commit(old(table), PurgeLinked)
      ensures forall i :: i in table.rows <==> i in old(table).rows && old(table).rows[i].message.None?
      ensures forall i :: i in table.rows ==> table.rows[i] == old(table).rows[i]
      ensures deleted == |old(table).rows| - Count(table)
    {
      DeltaIsExact(table, PurgeLinked);
      CommitKeepsWellFormed(table, PurgeLinked);
      var doomed := Linked(table.rows);
      assert table.rows.Keys == Undecrypted(table.rows) + doomed;
      deleted := |doomed|;
      table := table.(rows := table.rows - doomed);
    }

    method DeleteMessageById(message: Id)
      requires Valid()
      modifies this
      ensures Valid() && table == Commit(old(table), DeleteMessage(message))
      ensures table.rows.Keys == old(table).rows.Keys
      ensures forall i :: i in table.rows ==> table.rows[i] == old(table).rows[i].(
        message := if old(table).rows[i].message == Some(message) then None else old(table).rows[i].message)
    {
      DeltaIsExact(table, DeleteMessage(message));
      CommitKeepsWellFormed(table, DeleteMessage(message));
      var unlinked := |LinkedTo(table.rows, message)|;
      table := table.(rows := Unlink(table.rows, message));
      AdjustUndecryptedCount(unlinked);
    }

    method GetUndecryptedCount() returns (count: int)
      requires Valid()
      modifies this`cached
      ensures Valid() && count == Count(table) && cached == Some(count)
      ensures count == |set i | i in table.rows && table.rows[i].message.None?|
    {
      assert Undecrypted(table.rows) == set i | i in table.rows && table.rows[i].message.None?;
      if cached.Some? {
        return cached.value;
      }
      count := |Undecrypted(table.rows)|;
      cached := Some(count);
    }

    /** Any sequence of creates: one row per distinct digest, and every call names the first such row. */
    method CreateAll(batch: seq<PacketFrame.Bytes>, timestamp: int, sha: PacketFrame.Bytes -> Digest)
      returns (ids: seq<Id>)
      requires Valid()
      modifies this
      ensures Valid() && |ids| == |batch|
      ensures forall i :: 0 <= i < |batch| ==>
        ids[i] in table.rows && table.rows[ids[i]].digest == sha(PacketFrame.DedupBytes(batch[i]))
      ensures forall i, j :: 0 <= i < |batch| && 0 <= j < |batch| ==>
        (ids[i] == ids[j] <==> sha(PacketFrame.DedupBytes(batch[i])) == sha(PacketFrame.DedupBytes(batch[j])))
      ensures Kept(old(table), table) && Grown(old(table), table, ids)
    {
      ghost var digests := seq(|batch|, i requires 0 <= i < |batch| => sha(PacketFrame.DedupBytes(batch[i])));
      ids := [];
      while |ids| < |batch|
        invariant Valid() && |ids| <= |batch|
        invariant Named(table, ids, digests[..|ids|]) && Kept(old(table), table) && Grown(old(table), table, ids)
      {
        ghost var before := table;
        var id, isNew := Create(batch[|ids|], timestamp, sha);
        NamedStep(old(table), before, table, ids, digests, id);
        ids := ids + [id];
      }
      assert digests[..|ids|] == digests;
      SameRowExactlyForSameDigest(table, ids, digests);
    }
  }
}
