/**
 The migration that collapses incoming direct messages with the same conversation, text and
 (null-safe) sender timestamp into one row, relinking raw packets and merging what the rows knew.
 */
module DmDedupe {
  import opened Common
  import opened SetOrder

  type Id = nat

  datatype Json = JNull | JInt(i: int) | JText(s: string)

  /** One element of a stored paths array; a missing field reads as null. */
  datatype Entry = NotAnObject | Observation(path: Json, receivedAt: Json, pathLen: Json, extra: Json)

  datatype PathsValue = Absent | Unreadable | Entries(entries: seq<Entry>)

  // ---------------------------------------------------------------------------------------------
  // Merging path observations

  datatype ObsKey = ObsKey(path: Json, receivedAt: Json, pathLen: Json)

  function KeyOf(e: Entry): ObsKey
    requires e.Observation?
  {
    ObsKey(e.path, e.receivedAt, e.pathLen)
  }

  function AsObject(entry: Entry): (r: seq<Entry>)
    ensures forall e :: e in r ==> e.Observation?
  {
    if entry.Observation? then [entry] else []
  }

  function Observations(entries: seq<Entry>): (r: seq<Entry>)
    ensures forall e :: e in r ==> e.Observation?
  {
    if entries == [] then []
    else
      Observations(entries[..|entries| - 1]) + AsObject(entries[|entries| - 1])
  }

  lemma {:induction false} ObservationsAreTheObjects(entries: seq<Entry>, e: Entry)
    ensures e in Observations(entries) <==> e in entries && e.Observation?
  {
    if entries != [] {
      var n := |entries| - 1;
      ObservationsAreTheObjects(entries[..n], e);
      assert entries == entries[..n] + [entries[n]];
    }
  }

  function ObservationsOf(v: PathsValue): (r: seq<Entry>)
    ensures forall e :: e in r ==> e.Observation?
  {
    if v.Entries? then Observations(v.entries) else []
  }

  /** Everything observed, in row order and then array order. */
  function AllObservations(values: seq<PathsValue>): (r: seq<Entry>)
    ensures forall e :: e in r ==> e.Observation?
  {
    if values == [] then []
    else
      AllObservations(values[..|values| - 1]) + ObservationsOf(values[|values| - 1])
  }

  ghost predicate HasKey(xs: seq<Entry>, k: ObsKey)
  {
    exists e :: e in xs && e.Observation? && KeyOf(e) == k
  }

  /** Keeps the first observation of every key. */
  ghost function FirstOfEach(xs: seq<Entry>): (r: seq<Entry>)
    requires forall e :: e in xs ==> e.Observation?
  {
    if xs == [] then []
    else
      var before, last := xs[..|xs| - 1], xs[|xs| - 1];
      if HasKey(before, KeyOf(last)) then FirstOfEach(before) else FirstOfEach(before) + [last]
  }

  /** Duplicate-free, nothing invented, no key lost. */
  lemma {:induction false} FirstOfEachIsTheUnion(xs: seq<Entry>)
    requires forall e :: e in xs ==> e.Observation?
    ensures var r := FirstOfEach(xs);
      && (forall e :: e in r ==> e in xs)
      && (forall k :: HasKey(r, k) <==> HasKey(xs, k))
      && (forall i, j :: 0 <= i < j < |r| ==> KeyOf(r[i]) != KeyOf(r[j]))
  {
    if xs != [] {
      var before, last := xs[..|xs| - 1], xs[|xs| - 1];
      assert xs == before + [last];
      FirstOfEachIsTheUnion(before);
      HasKeyGrows(before, last);
      HasKeyGrows(FirstOfEach(before), last);
      var p := FirstOfEach(before);
      if !HasKey(before, KeyOf(last)) {
        forall i | 0 <= i < |p|
          ensures KeyOf(p[i]) != KeyOf(last)
        {
          assert p[i] in p;
          assert HasKey(p, KeyOf(p[i]));
        }
      }
    }
  }

  lemma HasKeyGrows(xs: seq<Entry>, e: Entry)
    requires e.Observation?
    ensures forall k :: HasKey(xs + [e], k) <==> HasKey(xs, k) || k == KeyOf(e)
  {
    forall k
      ensures HasKey(xs + [e], k) <==> HasKey(xs, k) || k == KeyOf(e)
    {
      assert (xs + [e])[|xs|] == e;
      if HasKey(xs, k) {
        var x :| x in xs && x.Observation? && KeyOf(x) == k;
        assert x in xs + [e];
      }
    }
  }

  /** The source's loop, growing the merged list and the set of keys seen. */
  method MergeMessagePaths(values: seq<PathsValue>) returns (r: PathsValue)
    ensures r == MergedPaths(values)
  {
    var merged: seq<Entry> := [];
    var seen: set<ObsKey> := {};
    ghost var all: seq<Entry> := [];
    var i := 0;
    while i < |values|
      invariant 0 <= i <= |values|
      invariant all == AllObservations(values[..i]) && forall e :: e in all ==> e.Observation?
      invariant merged == FirstOfEach(all) && Sees(seen, all)
    {
      AllObservationsStep(values, i);
      merged, seen := MergeValue(values[i], merged, seen, all);
      all := all + ObservationsOf(values[i]);
      i := i + 1;
    }
    assert values[..i] == values;
    r := if merged == [] then Absent else Entries(merged);
  }

  /** The keys seen are exactly those of the observations so far. */
  ghost predicate Sees(seen: set<ObsKey>, all: seq<Entry>)
  {
    forall k :: k in seen <==> HasKey(all, k)
  }

  lemma AllObservationsStep(values: seq<PathsValue>, i: nat)
    requires i < |values|
    ensures AllObservations(values[..i + 1]) == AllObservations(values[..i]) + ObservationsOf(values[i])
  {
    assert values[..i + 1][..i] == values[..i];
  }

  /** One row's value; what is absent, unreadable or not a list adds nothing. */
  method MergeValue(value: PathsValue, merged0: seq<Entry>, seen0: set<ObsKey>, ghost all: seq<Entry>)
    returns (merged: seq<Entry>, seen: set<ObsKey>)
    requires forall e :: e in all ==> e.Observation?
    requires merged0 == FirstOfEach(all) && Sees(seen0, all)
    ensures merged == FirstOfEach(all + ObservationsOf(value)) && Sees(seen, all + ObservationsOf(value))
  {
    merged, seen := merged0, seen0;
    if value.Entries? {
      merged, seen := MergeEntries(value.entries, merged, seen, all);
    } else {
      assert all + [] == all;
    }
  }

  method MergeEntries(entries: seq<Entry>, merged0: seq<Entry>, seen0: set<ObsKey>, ghost done: seq<Entry>)
    returns (merged: seq<Entry>, seen: set<ObsKey>)
    requires forall e :: e in done ==> e.Observation?
    requires merged0 == FirstOfEach(done) && Sees(seen0, done)
    ensures merged == FirstOfEach(done + Observations(entries))
    ensures Sees(seen, done + Observations(entries))
  {
    merged, seen := merged0, seen0;
    ghost var all := done;
    var j := 0;
    while j < |entries|
      invariant 0 <= j <= |entries|
      invariant all == done + Observations(entries[..j]) && forall e :: e in all ==> e.Observation?
      invariant merged == FirstOfEach(all) && Sees(seen, all)
    {
      ObservationsStep(entries, j);
      Assoc(done, Observations(entries[..j]), AsObject(entries[j]));
      merged, seen := MergeEntry(entries[j], merged, seen, all);
      all := all + AsObject(entries[j]);
      j := j + 1;
    }
    assert entries[..j] == entries;
  }

  /** An array element that is not an object adds nothing. */
  method MergeEntry(entry: Entry, merged0: seq<Entry>, seen0: set<ObsKey>, ghost all: seq<Entry>)
    returns (merged: seq<Entry>, seen: set<ObsKey>)
    requires forall e :: e in all ==> e.Observation?
    requires merged0 == FirstOfEach(all) && Sees(seen0, all)
    ensures merged == FirstOfEach(all + AsObject(entry)) && Sees(seen, all + AsObject(entry))
  {
    merged, seen := merged0, seen0;
    if entry.Observation? {
      merged, seen := MergeOne(entry, merged, seen, all);
    } else {
      assert all + [] == all;
    }
  }

  lemma Assoc(a: seq<Entry>, b: seq<Entry>, c: seq<Entry>)
    ensures a + (b + c) == a + b + c
  {
  }

  method MergeOne(entry: Entry, merged0: seq<Entry>, seen0: set<ObsKey>, ghost all: seq<Entry>)
    returns (merged: seq<Entry>, seen: set<ObsKey>)
    requires entry.Observation? && forall e :: e in all ==> e.Observation?
    requires merged0 == FirstOfEach(all) && Sees(seen0, all)
    ensures merged == FirstOfEach(all + [entry])
    ensures Sees(seen, all + [entry])
  {
    merged, seen := merged0, seen0;
    FirstOfEachStep(all, entry);
    HasKeyGrows(all, entry);
    if KeyOf(entry) !in seen {
      seen := seen + {KeyOf(entry)};
      merged := merged + [entry];
    }
  }

  lemma ObservationsStep(entries: seq<Entry>, j: nat)
    requires j < |entries|
    ensures Observations(entries[..j + 1]) == Observations(entries[..j]) + AsObject(entries[j])
  {
    assert entries[..j + 1][..j] == entries[..j];
  }

  lemma FirstOfEachStep(all: seq<Entry>, e: Entry)
    requires e.Observation? && forall x :: x in all ==> x.Observation?
    ensures FirstOfEach(all + [e]) == if HasKey(all, KeyOf(e)) then FirstOfEach(all) else FirstOfEach(all) + [e]
  {
    assert (all + [e])[..|all|] == all;
  }

  ghost function MergedPaths(values: seq<PathsValue>): PathsValue
  {
    var r := FirstOfEach(AllObservations(values));
    if r == [] then Absent else Entries(r)
  }

  // ---------------------------------------------------------------------------------------------
  // Messages and duplicate groups

  datatype Msg = Msg(
    incomingDm: bool,             // type = 'PRIV' AND outgoing = 0
    conversation: string,
    text: string,
    senderTimestamp: Option<int>,
    receivedAt: int,
    paths: PathsValue,
    txtType: Option<int>,
    signature: Option<string>,
    acked: Option<int>,
    senderName: Option<string>,
    senderKey: Option<string>)

  datatype Group = Group(conversation: string, text: string, timestamp: int)

  function GroupOf(m: Msg): Group
  {
    Group(m.conversation, m.text, if m.senderTimestamp.Some? then m.senderTimestamp.value else 0)
  }

  function Members(messages: map<Id, Msg>, g: Group): set<Id>
  {
    set i | i in messages && messages[i].incomingDm && GroupOf(messages[i]) == g
  }

  /** GROUP BY ... HAVING COUNT(*) > 1 */
  function DuplicateGroups(messages: map<Id, Msg>): set<Group>
  {
    set i | i in messages && messages[i].incomingDm && |Members(messages, GroupOf(messages[i]))| > 1 ::
      GroupOf(messages[i])
  }

  function Rows(messages: map<Id, Msg>, ids: seq<Id>): (r: seq<Msg>)
    requires forall i :: i in ids ==> i in messages
    ensures |r| == |ids| && forall k :: 0 <= k < |ids| ==> r[k] == messages[ids[k]]
  {
    seq(|ids|, k requires 0 <= k < |ids| => messages[ids[k]])
  }

  // ---------------------------------------------------------------------------------------------
  // What the surviving row keeps

  function Earliest(rows: seq<Msg>): (t: int)
    requires rows != []
  {
    if |rows| == 1 || rows[0].receivedAt < Earliest(rows[1..]) then rows[0].receivedAt else Earliest(rows[1..])
  }

  lemma {:induction false} EarliestIsMinimum(rows: seq<Msg>)
    requires rows != []
    ensures forall m :: m in rows ==> Earliest(rows) <= m.receivedAt
    ensures exists m :: m in rows && m.receivedAt == Earliest(rows)
  {
    assert rows == [rows[0]] + rows[1..] && rows[0] in rows;
    if |rows| > 1 {
      EarliestIsMinimum(rows[1..]);
      var w :| w in rows[1..] && w.receivedAt == Earliest(rows[1..]);
      assert w in rows;
    }
  }

  function AckCount(m: Msg): int
  {
    if m.acked.Some? then m.acked.value else 0
  }

  function MostAcked(rows: seq<Msg>): (n: int)
    requires rows != []
  {
    if |rows| == 1 || AckCount(rows[0]) > MostAcked(rows[1..]) then AckCount(rows[0]) else MostAcked(rows[1..])
  }

  lemma {:induction false} MostAckedIsMaximum(rows: seq<Msg>)
    requires rows != []
    ensures forall m :: m in rows ==> AckCount(m) <= MostAcked(rows)
    ensures exists m :: m in rows && AckCount(m) == MostAcked(rows)
  {
    assert rows == [rows[0]] + rows[1..] && rows[0] in rows;
    if |rows| > 1 {
      MostAckedIsMaximum(rows[1..]);
      var w :| w in rows[1..] && AckCount(w) == MostAcked(rows[1..]);
      assert w in rows;
    }
  }

  predicate SaysNothing(t: Option<string>)
  {
    t.None? || t.value == ""
  }

  predicate IsPlain(t: Option<int>)
  {
    t == Some(0)
  }

  /** The column of the first row that says something, else the given fallback. */
  function FirstSaid<T>(rows: seq<Msg>, column: Msg -> T, quiet: T -> bool, fallback: T): (r: T)
  {
    if rows == [] then fallback
    else if !quiet(column(rows[0])) then column(rows[0])
    else FirstSaid(rows[1..], column, quiet, fallback)
  }

  lemma {:induction false} FirstSaidIsFirst<T>(rows: seq<Msg>, column: Msg -> T, quiet: T -> bool, fallback: T)
    returns (k: nat)
    ensures k <= |rows| && forall j :: 0 <= j < k ==> quiet(column(rows[j]))
    ensures FirstSaid(rows, column, quiet, fallback) == if k < |rows| then column(rows[k]) else fallback
    ensures k < |rows| ==> !quiet(column(rows[k]))
  {
    k := 0;
    if rows != [] && quiet(column(rows[0])) {
      var n := FirstSaidIsFirst(rows[1..], column, quiet, fallback);
      assert forall j :: 1 <= j <= n ==> rows[j] == rows[1..][j - 1];
      k := n + 1;
    }
  }

  function PathColumn(rows: seq<Msg>): seq<PathsValue>
  {
    seq(|rows|, i requires 0 <= i < |rows| => rows[i].paths)
  }

  lemma PathColumnHolds(rows: seq<Msg>)
    ensures forall v :: v in PathColumn(rows) <==> exists m :: m in rows && m.paths == v
  {
    forall m | m in rows
      ensures m.paths in PathColumn(rows)
    {
      var n :| 0 <= n < |rows| && rows[n] == m;
      assert PathColumn(rows)[n] == m.paths;
    }
  }

  ghost function MergeRows(rows: seq<Msg>): Msg
    requires rows != []
  {
    rows[0].(
      receivedAt := Earliest(rows),
      paths := MergedPaths(PathColumn(rows)),
      txtType := FirstSaid(rows, (m: Msg) => m.txtType, IsPlain, Some(0)),
      signature := FirstSaid(rows, (m: Msg) => m.signature, SaysNothing, None),
      acked := Some(MostAcked(rows)),
      senderName := FirstSaid(rows, (m: Msg) => m.senderName, SaysNothing, None),
      senderKey := FirstSaid(rows, (m: Msg) => m.senderKey, SaysNothing, None))
  }

  // ---------------------------------------------------------------------------------------------
  // The tables after collapsing a set of groups, described from the original tables alone

  ghost predicate Superseded(messages: map<Id, Msg>, done: set<Group>, i: Id)
    requires i in messages
  {
    var m := messages[i];
    m.incomingDm && GroupOf(m) in done && i != Least(OwnGroup(messages, i))
  }

  /** The group of a row, never empty because the row is in it. */
  ghost function OwnGroup(messages: map<Id, Msg>, i: Id): (s: set<Id>)
    requires i in messages && messages[i].incomingDm
    ensures i in s && s == Members(messages, GroupOf(messages[i]))
  {
    Members(messages, GroupOf(messages[i]))
  }

  ghost function MergedRow(messages: map<Id, Msg>, g: Group): Msg
    requires Members(messages, g) != {}
  {
    var ids := Ascending(Members(messages, g));
    AscendingSorts(Members(messages, g));
    MergeRows(Rows(messages, ids))
  }

  ghost function Collapsed(messages: map<Id, Msg>, done: set<Group>): map<Id, Msg>
  {
    map i | i in messages && !Superseded(messages, done, i) ::
      if messages[i].incomingDm && GroupOf(messages[i]) in done
      then assert i in Members(messages, GroupOf(messages[i])); MergedRow(messages, GroupOf(messages[i]))
      else messages[i]
  }

  ghost function Target(messages: map<Id, Msg>, done: set<Group>, link: Option<Id>): Option<Id>
  {
    if link.Some? && link.value in messages && messages[link.value].incomingDm && GroupOf(messages[link.value]) in done
    then Some(Least(OwnGroup(messages, link.value))) else link
  }

  ghost function Relinked(messages: map<Id, Msg>, packets: map<Id, Option<Id>>, done: set<Group>): map<Id, Option<Id>>
  {
    map p | p in packets :: Target(messages, done, packets[p])
  }

  /** One group collapsed: the lowest id keeps the merged row, the others go. */
  ghost function CollapseOne(messages: map<Id, Msg>, g: Group): map<Id, Msg>
    requires Members(messages, g) != {}
  {
    var ids := Members(messages, g);
    (messages - (ids - {Least(ids)}))[Least(ids) := MergedRow(messages, g)]
  }

  ghost function RelinkOne(messages: map<Id, Msg>, packets: map<Id, Option<Id>>, g: Group): map<Id, Option<Id>>
    requires Members(messages, g) != {}
  {
    PointTo(packets, Members(messages, g), Least(Members(messages, g)))
  }

  /** Every link to one of the ids made a link to the keeper. */
  ghost function PointTo(packets: map<Id, Option<Id>>, ids: set<Id>, keeper: Id): map<Id, Option<Id>>
  {
    map p | p in packets :: if packets[p].Some? && packets[p].value in ids then Some(keeper) else packets[p]
  }

  lemma LeastIsFirst(s: set<Id>)
    requires s != {}
    ensures Ascending(s) != [] && Ascending(s)[0] == Least(s)
  {
  }

  lemma InIdOrder(messages: map<Id, Msg>, g: Group)
    requires Members(messages, g) != {}
    ensures var group := Members(messages, g); var ids := Ascending(group);
      && ids != [] && ids[0] == Least(group) && (forall i :: i in ids <==> i in group)
      && (forall i :: i in ids ==> i in messages) && MergedRow(messages, g) == MergeRows(Rows(messages, ids))
  {
    AscendingSorts(Members(messages, g));
    LeastIsFirst(Members(messages, g));
  }

  /** A merged row stays in its group. */
  lemma MergedRowStaysInGroup(messages: map<Id, Msg>, g: Group)
    requires Members(messages, g) != {}
    ensures MergedRow(messages, g).incomingDm && GroupOf(MergedRow(messages, g)) == g
  {
    var ids := Members(messages, g);
    AscendingSorts(ids);
    LeastIsFirst(ids);
    assert MergedRow(messages, g) == MergeRows(Rows(messages, Ascending(ids)));
    assert Rows(messages, Ascending(ids))[0] == messages[Least(ids)];
  }

  /** Collapsing some groups leaves the members of another one alone. */
  lemma OtherGroupsUntouched(messages: map<Id, Msg>, done: set<Group>, g: Group)
    requires g !in done
    ensures Members(Collapsed(messages, done), g) == Members(messages, g)
    ensures forall i :: i in Members(messages, g) ==>
      i in Collapsed(messages, done) && Collapsed(messages, done)[i] == messages[i]
  {
    var now := Collapsed(messages, done);
    forall i | i in now && now[i] != messages[i]
      ensures GroupOf(now[i]) in done
    {
      MergedRowStaysInGroup(messages, GroupOf(messages[i]));
    }
    forall i
      ensures i in Members(now, g) <==> i in Members(messages, g)
    {
      if i in Members(messages, g) {
        assert !Superseded(messages, done, i);
      }
    }
  }

  lemma SameMergedRow(messages: map<Id, Msg>, done: set<Group>, g: Group)
    requires g !in done && Members(messages, g) != {}
    ensures Members(Collapsed(messages, done), g) != {}
    ensures MergedRow(Collapsed(messages, done), g) == MergedRow(messages, g)
  {
    OtherGroupsUntouched(messages, done, g);
    var ids := Ascending(Members(messages, g));
    AscendingSorts(Members(messages, g));
    assert forall k :: 0 <= k < |ids| ==> ids[k] in Members(messages, g);
    assert Rows(Collapsed(messages, done), ids) == Rows(messages, ids);
  }

  lemma CollapseStepAt(messages: map<Id, Msg>, done: set<Group>, g: Group, i: Id)
    requires g !in done && Members(messages, g) != {} && Members(Collapsed(messages, done), g) == Members(messages, g)
    requires MergedRow(Collapsed(messages, done), g) == MergedRow(messages, g)
    ensures var one, both := CollapseOne(Collapsed(messages, done), g), Collapsed(messages, done + {g});
      (i in one <==> i in both) && (i in one && i in both ==> one[i] == both[i])
  {
    var ids := Members(messages, g);
    if i in ids {
      assert OwnGroup(messages, i) == ids;
      assert i in Collapsed(messages, done + {g}) <==> i == Least(ids);
    } else if i in messages {
      assert Superseded(messages, done + {g}, i) <==> Superseded(messages, done, i);
    }
  }

  /** Collapsing groups one at a time, in any order, is collapsing the set of them. */
  lemma CollapseStep(messages: map<Id, Msg>, done: set<Group>, g: Group)
    requires g !in done && Members(messages, g) != {}
    ensures Members(Collapsed(messages, done), g) != {}
    ensures CollapseOne(Collapsed(messages, done), g) == Collapsed(messages, done + {g})
  {
    SameMergedRow(messages, done, g);
    OtherGroupsUntouched(messages, done, g);
    var one, both := CollapseOne(Collapsed(messages, done), g), Collapsed(messages, done + {g});
    forall i
      ensures (i in one <==> i in both) && (i in one && i in both ==> one[i] == both[i])
    {
      CollapseStepAt(messages, done, g, i);
    }
    assert one.Keys == both.Keys;
  }

  lemma TargetStep(messages: map<Id, Msg>, done: set<Group>, g: Group, link: Option<Id>)
    requires g !in done && Members(messages, g) != {}
    ensures var ids := Members(messages, g); var now := Target(messages, done, link);
      Target(messages, done + {g}, link) == if now.Some? && now.value in ids then Some(Least(ids)) else now
  {
    if link.Some? && link.value in messages && messages[link.value].incomingDm {
      assert Least(OwnGroup(messages, link.value)) in OwnGroup(messages, link.value);
    }
  }

  lemma PointingStep(messages: map<Id, Msg>, packets: map<Id, Option<Id>>, done: set<Group>, g: Group)
    requires g !in done && Members(messages, g) != {}
    ensures PointTo(Relinked(messages, packets, done), Members(messages, g), Least(Members(messages, g))) ==
      Relinked(messages, packets, done + {g})
  {
    forall p | p in packets
      ensures var ids := Members(messages, g); var now := Target(messages, done, packets[p]);
        Target(messages, done + {g}, packets[p]) == if now.Some? && now.value in ids then Some(Least(ids)) else now
    {
      TargetStep(messages, done, g, packets[p]);
    }
  }

  lemma RelinkStep(messages: map<Id, Msg>, packets: map<Id, Option<Id>>, done: set<Group>, g: Group)
    requires g !in done && Members(messages, g) != {}
    ensures Members(Collapsed(messages, done), g) != {}
    ensures RelinkOne(Collapsed(messages, done), Relinked(messages, packets, done), g) ==
      Relinked(messages, packets, done + {g})
  {
    OtherGroupsUntouched(messages, done, g);
    PointingStep(messages, packets, done, g);
  }

  lemma NothingCollapsed(messages: map<Id, Msg>, packets: map<Id, Option<Id>>)
    ensures Collapsed(messages, {}) == messages && Relinked(messages, packets, {}) == packets
  {
  }

  lemma DuplicatesHaveMembers(messages: map<Id, Msg>, g: Group)
    requires g in DuplicateGroups(messages)
    ensures |Members(messages, g)| > 1
  {
  }

  lemma UpdateThenRemove(m: map<Id, Msg>, k: Id, row: Msg, gone: set<Id>)
    requires k !in gone
    ensures m[k := row] - gone == (m - gone)[k := row]
  {
  }

  /** What the survivor keeps of a group, read from its rows in id order. */
  method MergeGroup(rows: seq<Msg>) returns (row: Msg)
    requires rows != []
    ensures row == MergeRows(rows)
  {
    var paths := MergeMessagePaths(PathColumn(rows));
    row := rows[0].(
      receivedAt := Earliest(rows),
      paths := paths,
      txtType := FirstSaid(rows, (m: Msg) => m.txtType, IsPlain, Some(0)),
      signature := FirstSaid(rows, (m: Msg) => m.signature, SaysNothing, None),
      acked := Some(MostAcked(rows)),
      senderName := FirstSaid(rows, (m: Msg) => m.senderName, SaysNothing, None),
      senderKey := FirstSaid(rows, (m: Msg) => m.senderKey, SaysNothing, None));
  }

  // ---------------------------------------------------------------------------------------------
  // What the migration achieves, as statements about the tables before and after it

  ghost function Migrated(messages: map<Id, Msg>): map<Id, Msg>
  {
    Collapsed(messages, DuplicateGroups(messages))
  }

  ghost function MigratedLinks(messages: map<Id, Msg>, packets: map<Id, Option<Id>>): map<Id, Option<Id>>
  {
    Relinked(messages, packets, DuplicateGroups(messages))
  }

  ghost predicate Duplicated(messages: map<Id, Msg>, i: Id)
    requires i in messages
  {
    messages[i].incomingDm && GroupOf(messages[i]) in DuplicateGroups(messages)
  }

  lemma AloneIsLeast(messages: map<Id, Msg>, i: Id)
    requires i in messages && messages[i].incomingDm && !Duplicated(messages, i)
    ensures Least(OwnGroup(messages, i)) == i
  {
    var group := OwnGroup(messages, i);
    assert |group| <= 1;
    if Least(group) != i {
      SubsetSize({i, Least(group)}, group);
    }
  }

  /** The ids that survive: every row that is not an incoming DM, and the lowest of each group. */
  lemma SurvivorsAreTheLowestIds(messages: map<Id, Msg>, i: Id)
    ensures i in Migrated(messages) <==>
      i in messages && (messages[i].incomingDm ==> i == Least(OwnGroup(messages, i)))
  {
    if i in messages && messages[i].incomingDm && !Duplicated(messages, i) {
      AloneIsLeast(messages, i);
    }
  }

  /** A row outside every duplicate group is still there, unchanged. */
  lemma OutsideRowsUnchanged(messages: map<Id, Msg>, i: Id)
    requires i in messages && !Duplicated(messages, i)
    ensures i in Migrated(messages) && Migrated(messages)[i] == messages[i]
  {
  }

  lemma SurvivorStaysInGroup(messages: map<Id, Msg>, i: Id)
    requires i in Migrated(messages)
    ensures i in messages && Migrated(messages)[i].incomingDm == messages[i].incomingDm
    ensures messages[i].incomingDm ==> GroupOf(Migrated(messages)[i]) == GroupOf(messages[i])
  {
    if Duplicated(messages, i) {
      assert i in Members(messages, GroupOf(messages[i]));
      MergedRowStaysInGroup(messages, GroupOf(messages[i]));
    }
  }

  /** No two incoming DMs share a group any more, which is what the new unique index demands. */
  lemma NoDuplicatesRemain(messages: map<Id, Msg>, i: Id, j: Id)
    requires i in Migrated(messages) && j in Migrated(messages)
    requires Migrated(messages)[i].incomingDm && Migrated(messages)[j].incomingDm
    requires GroupOf(Migrated(messages)[i]) == GroupOf(Migrated(messages)[j])
    ensures i == j
  {
    SurvivorsAreTheLowestIds(messages, i);
    SurvivorsAreTheLowestIds(messages, j);
    SurvivorStaysInGroup(messages, i);
    SurvivorStaysInGroup(messages, j);
  }

  /** Running the migration again finds nothing to do. */
  lemma MigratingAgainDoesNothing(messages: map<Id, Msg>, packets: map<Id, Option<Id>>)
    ensures DuplicateGroups(Migrated(messages)) == {}
    ensures Migrated(Migrated(messages)) == Migrated(messages)
    ensures MigratedLinks(Migrated(messages), packets) == packets
  {
    var after := Migrated(messages);
    forall i | i in after && after[i].incomingDm
      ensures |Members(after, GroupOf(after[i]))| <= 1
    {
      forall j | j in Members(after, GroupOf(after[i]))
        ensures j == i
      {
        NoDuplicatesRemain(messages, i, j);
      }
      SubsetSize(Members(after, GroupOf(after[i])), {i});
    }
    assert DuplicateGroups(after) == {};
    NothingCollapsed(after, packets);
  }

  /**
   A packet linked to an incoming DM ends up linked to the lowest id of that DM's group, which
   survives; every other link is kept. So no link is left dangling that was not dangling before.
   */
  lemma LinksFollowTheSurvivor(messages: map<Id, Msg>, packets: map<Id, Option<Id>>, p: Id)
    requires p in packets
    ensures MigratedLinks(messages, packets).Keys == packets.Keys
    ensures var before, after := packets[p], MigratedLinks(messages, packets)[p];
      && (if before.Some? && before.value in messages && messages[before.value].incomingDm
        then after == Some(Least(OwnGroup(messages, before.value))) else after == before)
      && (after.Some? && before.value in messages ==> after.value in Migrated(messages))
  {
    var before := packets[p];
    if before.Some? && before.value in messages {
      var i := before.value;
      if messages[i].incomingDm {
        if !Duplicated(messages, i) {
          AloneIsLeast(messages, i);
        }
        var group := OwnGroup(messages, i);
        assert Least(group) in group && OwnGroup(messages, Least(group)) == group;
        SurvivorsAreTheLowestIds(messages, Least(group));
      } else {
        SurvivorsAreTheLowestIds(messages, i);
      }
    }
  }

  /** Some object of the stored array has this key. */
  ghost predicate Observes(v: PathsValue, k: ObsKey)
  {
    v.Entries? && exists e :: e in v.entries && e.Observation? && KeyOf(e) == k
  }

  lemma ObservedExactly(v: PathsValue, k: ObsKey)
    ensures HasKey(ObservationsOf(v), k) <==> Observes(v, k)
  {
    if v.Entries? {
      forall e
        ensures e in Observations(v.entries) <==> e in v.entries && e.Observation?
      {
        ObservationsAreTheObjects(v.entries, e);
      }
    }
  }

  lemma {:induction false} AllObserved(values: seq<PathsValue>, e: Entry)
    ensures e in AllObservations(values) <==> exists v :: v in values && e in ObservationsOf(v)
  {
    if values != [] {
      var n := |values| - 1;
      AllObserved(values[..n], e);
      LastOrBefore(values, e);
    }
  }

  lemma LastOrBefore(values: seq<PathsValue>, e: Entry)
    requires values != []
    ensures var n := |values| - 1;
      (exists v :: v in values && e in ObservationsOf(v)) <==>
        (exists v :: v in values[..n] && e in ObservationsOf(v)) || e in ObservationsOf(values[n])
  {
    var n := |values| - 1;
    assert forall v :: v in values <==> v in values[..n] || v == values[n];
  }

  lemma SomeArrayObserves(values: seq<PathsValue>, k: ObsKey)
    requires HasKey(AllObservations(values), k)
    ensures exists v :: v in values && Observes(v, k)
  {
    var e :| e in AllObservations(values) && e.Observation? && KeyOf(e) == k;
    AllObserved(values, e);
    var v :| v in values && e in ObservationsOf(v);
    ObservedExactly(v, k);
  }

  lemma ArrayIsObserved(values: seq<PathsValue>, v: PathsValue, k: ObsKey)
    requires v in values && Observes(v, k)
    ensures HasKey(AllObservations(values), k)
  {
    ObservedExactly(v, k);
    var e :| e in ObservationsOf(v) && e.Observation? && KeyOf(e) == k;
    AllObserved(values, e);
  }

  /** The merged array holds only objects, one for every key some stored array has an object of, and no key twice. */
  lemma MergedPathsAreTheUnion(values: seq<PathsValue>, k: ObsKey)
    ensures var merged := MergedPaths(values);
      && (Observes(merged, k) <==> exists v :: v in values && Observes(v, k))
      && (merged.Entries? ==> forall e :: e in merged.entries ==> e.Observation?)
      && (merged.Entries? ==> OneEachKey(merged.entries))
  {
    var all := AllObservations(values);
    FirstOfEachIsTheUnion(all);
    assert Observes(MergedPaths(values), k) <==> HasKey(FirstOfEach(all), k);
    if HasKey(all, k) {
      SomeArrayObserves(values, k);
    }
    if v :| v in values && Observes(v, k) {
      ArrayIsObserved(values, v, k);
    }
  }

  ghost predicate OneEachKey(xs: seq<Entry>)
    requires forall e :: e in xs ==> e.Observation?
  {
    forall i, j :: 0 <= i < j < |xs| ==> KeyOf(xs[i]) != KeyOf(xs[j])
  }

  /** The rows of a row's group, in id order. */
  ghost function GroupRows(messages: map<Id, Msg>, i: Id): (rows: seq<Msg>)
    requires i in messages && messages[i].incomingDm
    ensures rows != []
  {
    var group := OwnGroup(messages, i);
    assert i in group;
    InIdOrder(messages, GroupOf(messages[i]));
    Rows(messages, Ascending(group))
  }

  lemma SurvivorIsTheMergedRow(messages: map<Id, Msg>, i: Id)
    requires i in messages && Duplicated(messages, i)
    ensures Least(OwnGroup(messages, i)) in Migrated(messages)
    ensures Migrated(messages)[Least(OwnGroup(messages, i))] == MergeRows(GroupRows(messages, i))
  {
    var group := OwnGroup(messages, i);
    InIdOrder(messages, GroupOf(messages[i]));
    assert Least(group) in group && OwnGroup(messages, Least(group)) == group;
    SurvivorsAreTheLowestIds(messages, Least(group));
  }

  lemma GroupRowsAreTheMembers(messages: map<Id, Msg>, i: Id, m: Msg)
    requires i in messages && messages[i].incomingDm
    ensures m in GroupRows(messages, i) <==> exists x :: x in OwnGroup(messages, i) && messages[x] == m
  {
    var ids, rows := Ascending(OwnGroup(messages, i)), GroupRows(messages, i);
    InIdOrder(messages, GroupOf(messages[i]));
    if m in rows {
      var n :| 0 <= n < |rows| && rows[n] == m;
      assert ids[n] in ids;
    }
    if x :| x in OwnGroup(messages, i) && messages[x] == m {
      var n :| 0 <= n < |ids| && ids[n] == x;
      assert rows[n] == m;
    }
  }

  lemma GroupHasTheEarliest(messages: map<Id, Msg>, i: Id)
    requires i in messages && messages[i].incomingDm
    ensures var group := OwnGroup(messages, i); var t := Earliest(GroupRows(messages, i));
      (forall x :: x in group ==> t <= messages[x].receivedAt) && exists x :: x in group && t == messages[x].receivedAt
  {
    var rows := GroupRows(messages, i);
    EarliestIsMinimum(rows);
    forall x | x in OwnGroup(messages, i)
      ensures Earliest(rows) <= messages[x].receivedAt
    {
      GroupRowsAreTheMembers(messages, i, messages[x]);
    }
    var first :| first in rows && first.receivedAt == Earliest(rows);
    GroupRowsAreTheMembers(messages, i, first);
  }

  lemma GroupHasTheMostAcked(messages: map<Id, Msg>, i: Id)
    requires i in messages && messages[i].incomingDm
    ensures var group := OwnGroup(messages, i); var n := MostAcked(GroupRows(messages, i));
      (forall x :: x in group ==> AckCount(messages[x]) <= n) && exists x :: x in group && AckCount(messages[x]) == n
  {
    var rows := GroupRows(messages, i);
    MostAckedIsMaximum(rows);
    forall x | x in OwnGroup(messages, i)
      ensures AckCount(messages[x]) <= MostAcked(rows)
    {
      GroupRowsAreTheMembers(messages, i, messages[x]);
    }
    var most :| most in rows && AckCount(most) == MostAcked(rows);
    GroupRowsAreTheMembers(messages, i, most);
  }

  /** The survivor of a duplicate group has its earliest reception time and its highest ack count. */
  lemma SurvivorHasTheExtremes(messages: map<Id, Msg>, i: Id)
    requires i in messages && Duplicated(messages, i)
    ensures var group := OwnGroup(messages, i); var row := Migrated(messages)[Least(group)];
      && (forall x :: x in group ==> row.receivedAt <= messages[x].receivedAt)
      && (exists x :: x in group && row.receivedAt == messages[x].receivedAt)
      && (forall x :: x in group ==> AckCount(messages[x]) <= AckCount(row))
      && (exists x :: x in group && AckCount(messages[x]) == AckCount(row))
  {
    SurvivorIsTheMergedRow(messages, i);
    GroupHasTheEarliest(messages, i);
    GroupHasTheMostAcked(messages, i);
  }

  /** The survivor holds every path observation of every member, exactly once per key. */
  lemma SurvivorHasEveryObservation(messages: map<Id, Msg>, i: Id, k: ObsKey)
    requires i in messages && Duplicated(messages, i)
    ensures var group := OwnGroup(messages, i); var kept := Migrated(messages)[Least(group)].paths;
      && (Observes(kept, k) <==> exists x :: x in group && Observes(messages[x].paths, k))
      && (kept.Entries? ==> (forall e :: e in kept.entries ==> e.Observation?) && OneEachKey(kept.entries))
  {
    SurvivorIsTheMergedRow(messages, i);
    var rows := GroupRows(messages, i);
    MergedPathsAreTheUnion(PathColumn(rows), k);
    PathColumnHolds(rows);
    forall x | x in OwnGroup(messages, i)
      ensures messages[x].paths in PathColumn(rows)
    {
      GroupRowsAreTheMembers(messages, i, messages[x]);
    }
    if v :| v in PathColumn(rows) && Observes(v, k) {
      var m :| m in rows && m.paths == v;
      GroupRowsAreTheMembers(messages, i, m);
    }
  }

  ghost predicate QuietBefore<T>(messages: map<Id, Msg>, group: set<Id>, column: Msg -> T, quiet: T -> bool, x: Id)
    requires group <= messages.Keys
  {
    forall y :: y in group && y < x ==> quiet(column(messages[y]))
  }

  /** r is what the lowest id of the group that says something has in a column, else the fallback. */
  ghost predicate IsFirstSaid<T>(messages: map<Id, Msg>, group: set<Id>, column: Msg -> T, quiet: T -> bool,
                                 fallback: T, r: T)
    requires group <= messages.Keys
  {
    || (r == fallback && forall x :: x in group ==> quiet(column(messages[x])))
    || (exists x ::
          x in group && r == column(messages[x]) && !quiet(r) && QuietBefore(messages, group, column, quiet, x))
  }

  /** The k-th row in id order is the first to say something. */
  lemma FirstSaidByIds<T>(messages: map<Id, Msg>, group: set<Id>, ids: seq<Id>, column: Msg -> T, quiet: T -> bool,
                          fallback: T)
    requires group <= messages.Keys && Increasing(ids) && forall x :: x in ids <==> x in group
    ensures forall x :: x in ids ==> x in messages
    ensures IsFirstSaid(messages, group, column, quiet, fallback,
      FirstSaid(Rows(messages, ids), column, quiet, fallback))
  {
    var rows := Rows(messages, ids);
    var k := FirstSaidIsFirst(rows, column, quiet, fallback);
    forall y | y in group && (k < |ids| ==> y < ids[k])
      ensures quiet(column(messages[y]))
    {
      var n :| 0 <= n < |ids| && ids[n] == y;
      EarlierId(ids, n, k);
      assert rows[n] == messages[y];
    }
    if k < |ids| {
      assert ids[k] in group && rows[k] == messages[ids[k]];
      assert QuietBefore(messages, group, column, quiet, ids[k]);
    }
  }

  lemma EarlierId(ids: seq<Id>, n: nat, k: nat)
    requires Increasing(ids) && n < |ids| && k <= |ids| && (k < |ids| ==> ids[n] < ids[k])
    ensures n < k
  {
  }

  lemma FirstSaidInTheGroup<T>(messages: map<Id, Msg>, i: Id, column: Msg -> T, quiet: T -> bool, fallback: T)
    requires i in messages && messages[i].incomingDm
    ensures IsFirstSaid(messages, OwnGroup(messages, i), column, quiet, fallback,
      FirstSaid(GroupRows(messages, i), column, quiet, fallback))
  {
    var group := OwnGroup(messages, i);
    InIdOrder(messages, GroupOf(messages[i]));
    AscendingSorts(group);
    FirstSaidByIds(messages, group, Ascending(group), column, quiet, fallback);
  }

  /** Text type, signature and sender come from the lowest id that has one; all else is the keeper's own. */
  lemma SurvivorHasTheFirstSaid(messages: map<Id, Msg>, i: Id)
    requires i in messages && Duplicated(messages, i)
    ensures var group := OwnGroup(messages, i); var row := Migrated(messages)[Least(group)];
      && IsFirstSaid(messages, group, (m: Msg) => m.txtType, IsPlain, Some(0), row.txtType)
      && IsFirstSaid(messages, group, (m: Msg) => m.signature, SaysNothing, None, row.signature)
      && IsFirstSaid(messages, group, (m: Msg) => m.senderName, SaysNothing, None, row.senderName)
      && IsFirstSaid(messages, group, (m: Msg) => m.senderKey, SaysNothing, None, row.senderKey)
      && row.senderTimestamp == messages[Least(group)].senderTimestamp
  {
    SurvivorIsTheMergedRow(messages, i);
    InIdOrder(messages, GroupOf(messages[i]));
    FirstSaidInTheGroup(messages, i, (m: Msg) => m.txtType, IsPlain, Some(0));
    FirstSaidInTheGroup(messages, i, (m: Msg) => m.signature, SaysNothing, None);
    FirstSaidInTheGroup(messages, i, (m: Msg) => m.senderName, SaysNothing, None);
    FirstSaidInTheGroup(messages, i, (m: Msg) => m.senderKey, SaysNothing, None);
  }

  // ---------------------------------------------------------------------------------------------
  // The same on the columns alone

  /** A row's group: the incoming DMs with its conversation, its text and its timestamp, a null one being 0. */
  lemma OwnGroupMeans(messages: map<Id, Msg>, i: Id, j: Id)
    requires i in messages && messages[i].incomingDm
    ensures j in OwnGroup(messages, i) <==>
      && j in messages && messages[j].incomingDm
      && messages[j].conversation == messages[i].conversation && messages[j].text == messages[i].text
      && (if messages[j].senderTimestamp.Some? then messages[j].senderTimestamp.value else 0) ==
        (if messages[i].senderTimestamp.Some? then messages[i].senderTimestamp.value else 0)
  {
  }

  /** An incoming DM is gone exactly if a lower id is an incoming DM with equal columns. */
  lemma GoneExactlyForALowerTwin(messages: map<Id, Msg>, i: Id)
    requires i in messages && messages[i].incomingDm
    ensures i !in Migrated(messages) <==> exists j ::
      && j in messages && j < i && messages[j].incomingDm
      && messages[j].conversation == messages[i].conversation && messages[j].text == messages[i].text
      && (if messages[j].senderTimestamp.Some? then messages[j].senderTimestamp.value else 0) ==
        (if messages[i].senderTimestamp.Some? then messages[i].senderTimestamp.value else 0)
  {
    SurvivorsAreTheLowestIds(messages, i);
    var group := OwnGroup(messages, i);
    OwnGroupMeans(messages, i, Least(group));
    if j :| j in messages && j < i && j in group {
      OwnGroupMeans(messages, i, j);
    }
  }

  /** A row that is not an incoming DM, or has no twin, is still there and unchanged. */
  lemma UnchangedWithoutTwin(messages: map<Id, Msg>, i: Id)
    requires i in messages
    requires messages[i].incomingDm ==> forall j :: j in messages && messages[j].incomingDm && j != i ==>
      || messages[j].conversation != messages[i].conversation || messages[j].text != messages[i].text
      || (if messages[j].senderTimestamp.Some? then messages[j].senderTimestamp.value else 0) !=
        (if messages[i].senderTimestamp.Some? then messages[i].senderTimestamp.value else 0)
    ensures i in Migrated(messages) && Migrated(messages)[i] == messages[i]
  {
    if messages[i].incomingDm {
      forall j | j in OwnGroup(messages, i)
        ensures j == i
      {
        OwnGroupMeans(messages, i, j);
      }
      SubsetSize(OwnGroup(messages, i), {i});
    }
    OutsideRowsUnchanged(messages, i);
  }

  /** Two surviving incoming DMs differ in conversation, text or timestamp. */
  lemma SurvivorsDiffer(messages: map<Id, Msg>, i: Id, j: Id)
    requires i in Migrated(messages) && j in Migrated(messages) && i != j
    requires Migrated(messages)[i].incomingDm && Migrated(messages)[j].incomingDm
    ensures var a, b := Migrated(messages)[i], Migrated(messages)[j];
      || a.conversation != b.conversation || a.text != b.text
      || (if a.senderTimestamp.Some? then a.senderTimestamp.value else 0) !=
        (if b.senderTimestamp.Some? then b.senderTimestamp.value else 0)
  {
    if GroupOf(Migrated(messages)[i]) == GroupOf(Migrated(messages)[j]) {
      NoDuplicatesRemain(messages, i, j);
      assert false;
    }
  }

  /** A packet linked to an incoming DM ends up linked to the lowest id with that DM's columns. */
  lemma LinkedToTheLowestTwin(messages: map<Id, Msg>, packets: map<Id, Option<Id>>, p: Id, i: Id)
    requires p in packets && packets[p] == Some(i) && i in messages && messages[i].incomingDm
    ensures p in MigratedLinks(messages, packets) && MigratedLinks(messages, packets)[p].Some?
    ensures var k := MigratedLinks(messages, packets)[p].value;
      && k in Migrated(messages) && k in messages && k <= i && messages[k].incomingDm
      && messages[k].conversation == messages[i].conversation && messages[k].text == messages[i].text
      && (if messages[k].senderTimestamp.Some? then messages[k].senderTimestamp.value else 0) ==
        (if messages[i].senderTimestamp.Some? then messages[i].senderTimestamp.value else 0)
  {
    LinksFollowTheSurvivor(messages, packets, p);
    OwnGroupMeans(messages, i, Least(OwnGroup(messages, i)));
  }

  /** Every path observation of a member is kept: some kept object has its path, its time and its length. */
  lemma EveryObservationKept(messages: map<Id, Msg>, i: Id, x: Id, e: Entry)
    requires i in messages && Duplicated(messages, i) && x in OwnGroup(messages, i)
    requires messages[x].paths.Entries? && e in messages[x].paths.entries && e.Observation?
    ensures var kept := Migrated(messages)[Least(OwnGroup(messages, i))].paths;
      kept.Entries? && exists f ::
        && f in kept.entries && f.Observation?
        && f.path == e.path && f.receivedAt == e.receivedAt && f.pathLen == e.pathLen
  {
    assert Observes(messages[x].paths, KeyOf(e));
    SurvivorHasEveryObservation(messages, i, KeyOf(e));
  }

  /** Nothing is kept twice: two kept objects differ in path, time or length. */
  lemma KeptObservationsDiffer(messages: map<Id, Msg>, i: Id, a: nat, b: nat)
    requires i in messages && Duplicated(messages, i)
    requires Migrated(messages)[Least(OwnGroup(messages, i))].paths.Entries?
    requires a < b < |Migrated(messages)[Least(OwnGroup(messages, i))].paths.entries|
    ensures var kept := Migrated(messages)[Least(OwnGroup(messages, i))].paths.entries;
      && kept[a].Observation? && kept[b].Observation?
      && (|| kept[a].path != kept[b].path || kept[a].receivedAt != kept[b].receivedAt
          || kept[a].pathLen != kept[b].pathLen)
  {
    SurvivorHasEveryObservation(messages, i, ObsKey(JNull, JNull, JNull));
    var kept := Migrated(messages)[Least(OwnGroup(messages, i))].paths.entries;
    assert kept[a] in kept && kept[b] in kept;
    assert KeyOf(kept[a]) != KeyOf(kept[b]);
  }

  /** A text column: null if every member's is null or empty, else that of the lowest id with a real one. */
  ghost predicate TakesFirstText(messages: map<Id, Msg>, group: set<Id>, column: Msg -> Option<string>,
                                 r: Option<string>)
    requires group <= messages.Keys
  {
    if r.None? then forall x :: x in group ==> column(messages[x]) in {None, Some("")}
    else r.value != "" && exists x :: x in group && column(messages[x]) == r && EmptyBefore(messages, group, column, x)
  }

  ghost predicate EmptyBefore(messages: map<Id, Msg>, group: set<Id>, column: Msg -> Option<string>, x: Id)
    requires group <= messages.Keys
  {
    forall y :: y in group && y < x ==> column(messages[y]) in {None, Some("")}
  }

  /** The text type: 0 if every member's is, else that of the lowest id with another one. */
  ghost predicate TakesFirstType(messages: map<Id, Msg>, group: set<Id>, r: Option<int>)
    requires group <= messages.Keys
  {
    if r == Some(0) then forall x :: x in group ==> messages[x].txtType == Some(0)
    else exists x :: x in group && messages[x].txtType == r && ZeroBefore(messages, group, x)
  }

  ghost predicate ZeroBefore(messages: map<Id, Msg>, group: set<Id>, x: Id)
    requires group <= messages.Keys
  {
    forall y :: y in group && y < x ==> messages[y].txtType == Some(0)
  }

  lemma FirstSaidIsFirstType(messages: map<Id, Msg>, group: set<Id>, r: Option<int>)
    requires group <= messages.Keys && IsFirstSaid(messages, group, (m: Msg) => m.txtType, IsPlain, Some(0), r)
    ensures TakesFirstType(messages, group, r)
  {
    var column := (m: Msg) => m.txtType;
    if r != Some(0) {
      var x :| x in group && r == column(messages[x]) && !IsPlain(r) &&
        QuietBefore(messages, group, column, IsPlain, x);
      assert ZeroBefore(messages, group, x);
    }
  }

  lemma FirstSaidIsFirstText(messages: map<Id, Msg>, group: set<Id>, column: Msg -> Option<string>, r: Option<string>)
    requires group <= messages.Keys && IsFirstSaid(messages, group, column, SaysNothing, None, r)
    ensures TakesFirstText(messages, group, column, r)
  {
    if r.Some? {
      var x :| x in group && r == column(messages[x]) && !SaysNothing(r) &&
        QuietBefore(messages, group, column, SaysNothing, x);
      assert EmptyBefore(messages, group, column, x);
    }
  }

  /** Earliest time, highest ack count with null as 0, and the first text of each column, over the twins. */
  lemma SurvivorOnColumns(messages: map<Id, Msg>, i: Id)
    requires i in messages && Duplicated(messages, i)
    ensures var group := OwnGroup(messages, i); var row := Migrated(messages)[Least(group)];
      && row.acked.Some?
      && (forall x :: x in group ==> row.receivedAt <= messages[x].receivedAt)
      && (forall x :: x in group ==>
          (if messages[x].acked.Some? then messages[x].acked.value else 0) <= row.acked.value)
      && (exists x :: x in group && (if messages[x].acked.Some? then messages[x].acked.value else 0) == row.acked.value)
      && TakesFirstText(messages, group, (m: Msg) => m.signature, row.signature)
      && TakesFirstText(messages, group, (m: Msg) => m.senderName, row.senderName)
      && TakesFirstText(messages, group, (m: Msg) => m.senderKey, row.senderKey)
      && TakesFirstType(messages, group, row.txtType)
      && row.conversation == messages[i].conversation && row.text == messages[i].text
  {
    SurvivorIsTheMergedRow(messages, i);
    SurvivorHasTheExtremes(messages, i);
    SurvivorHasTheFirstSaid(messages, i);
    var group := OwnGroup(messages, i);
    var row := Migrated(messages)[Least(group)];
    FirstSaidIsFirstType(messages, group, row.txtType);
    FirstSaidIsFirstText(messages, group, (m: Msg) => m.signature, row.signature);
    FirstSaidIsFirstText(messages, group, (m: Msg) => m.senderName, row.senderName);
    FirstSaidIsFirstText(messages, group, (m: Msg) => m.senderKey, row.senderKey);
    OwnGroupMeans(messages, i, Least(group));
    InIdOrder(messages, GroupOf(messages[i]));
  }

  // ---------------------------------------------------------------------------------------------
  // The migration

  class MessageStore {
    var messages: map<Id, Msg>
    var packets: map<Id, Option<Id>>

    method CollapseGroup(g: Group)
      requires |Members(messages, g)| > 1
      modifies this
      ensures Members(old(messages), g) != {}
      ensures messages == CollapseOne(old(messages), g)
      ensures packets == RelinkOne(old(messages), old(packets), g)
    {
      var ids := Ascending(Members(messages, g));
      InIdOrder(messages, g);
      var row := MergeGroup(Rows(messages, ids));
      RelinkDuplicates(ids, Members(messages, g));
      UpdateAndDelete(ids, row, Members(messages, g));
    }

    /** The keeper's UPDATE, then DELETE ... WHERE id IN (duplicates) */
    method UpdateAndDelete(ids: seq<Id>, row: Msg, ghost group: set<Id>)
      requires ids != [] && forall i :: i in ids <==> i in group
      modifies this`messages
      ensures messages == (old(messages) - (group - {ids[0]}))[ids[0] := row]
    {
      var duplicates := set i | i in ids && i != ids[0];
      assert duplicates == group - {ids[0]};
      messages := messages[ids[0] := row];
      messages := messages - duplicates;
      UpdateThenRemove(old(messages), ids[0], row, duplicates);
    }

    /** UPDATE raw_packets SET message_id = keeper WHERE message_id = duplicate, for each duplicate */
    method RelinkDuplicates(ids: seq<Id>, ghost group: set<Id>)
      requires ids != [] && forall i :: i in ids <==> i in group
      modifies this`packets
      ensures packets == PointTo(old(packets), group, ids[0])
    {
      var k := 1;
      while k < |ids|
        invariant 1 <= k <= |ids|
        invariant packets.Keys == old(packets).Keys
        invariant forall p :: p in packets ==>
          packets[p] ==
            if old(packets)[p].Some? && old(packets)[p].value in ids[..k] then Some(ids[0]) else old(packets)[p]
      {
        assert ids[..k + 1] == ids[..k] + [ids[k]];
        packets := map p | p in packets :: if packets[p] == Some(ids[k]) then Some(ids[0]) else packets[p];
        k := k + 1;
      }
      assert ids[..k] == ids;
    }

    method Migrate()
      modifies this
      ensures messages == Migrated(old(messages))
      ensures packets == MigratedLinks(old(messages), old(packets))
    {
      forall g | g in DuplicateGroups(messages)
        ensures |Members(messages, g)| > 1
      {
        DuplicatesHaveMembers(messages, g);
      }
      CollapseAll(DuplicateGroups(messages));
    }

    method CollapseAll(groups: set<Group>)
      requires forall g :: g in groups ==> |Members(messages, g)| > 1
      modifies this
      ensures messages == Collapsed(old(messages), groups)
      ensures packets == Relinked(old(messages), old(packets), groups)
    {
      NothingCollapsed(messages, packets);
      var todo := groups;
      assert groups - todo == {};
      while todo != {}
        invariant todo <= groups
        invariant messages == Collapsed(old(messages), groups - todo)
        invariant packets == Relinked(old(messages), old(packets), groups - todo)
        decreases |todo|
      {
        var g :| g in todo;
        CollapseNext(g, old(messages), old(packets), groups - todo);
        assert groups - todo + {g} == groups - (todo - {g});
        todo := todo - {g};
      }
      assert groups - todo == groups;
    }

    /** One more group, described from the original tables. */
    method CollapseNext(g: Group, ghost messages0: map<Id, Msg>, ghost packets0: map<Id, Option<Id>>,
                        ghost done: set<Group>)
      requires g !in done && |Members(messages0, g)| > 1
      requires messages == Collapsed(messages0, done) && packets == Relinked(messages0, packets0, done)
      modifies this
      ensures messages == Collapsed(messages0, done + {g}) && packets == Relinked(messages0, packets0, done + {g})
    {
      OtherGroupsUntouched(messages0, done, g);
      CollapseStep(messages0, done, g);
      RelinkStep(messages0, packets0, done, g);
      CollapseGroup(g);
    }
  }
}
