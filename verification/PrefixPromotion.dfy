/**
 Promotion of prefix-only placeholder contacts: once a full public key is known, every placeholder
 that can only mean that key is merged into it, with its name history and its advert paths.

 Keys are lower-case hex, on which the queries' LIKE key || '%' is the prefix test.
 */
module PrefixPromotion {
  import opened Common
  import opened Text

  type Key = string

  datatype Contact = Contact(
    lastSeen: Option<int>,
    lastContacted: Option<int>,
    firstSeen: Option<int>,
    lastReadAt: Option<int>,
    name: Option<string>)         // stands for every column the promotion does not write

  /** A child row belongs to an owner and, per owner, there is one row for each item. */
  datatype ChildKey<I> = ChildKey(owner: Key, item: I)

  type ChildTable<I(==), V> = map<ChildKey<I>, V>

  datatype PathItem = PathItem(hex: string, len: int)

  datatype Span = Span(first: int, last: int)

  datatype Heard = Heard(first: int, last: int, count: int)

  datatype Tables = Tables(
    contacts: map<Key, Contact>,
    names: ChildTable<string, Span>,
    paths: ChildTable<PathItem, Heard>)

  /** ON CONFLICT(public_key, name) DO UPDATE */
  function JoinSpans(row: Span, excluded: Span): Span
  {
    Span(Min(row.first, excluded.first), Max(row.last, excluded.last))
  }

  /** ON CONFLICT(public_key, path_hex, path_len) DO UPDATE */
  function JoinHeard(row: Heard, excluded: Heard): Heard
  {
    Heard(Min(row.first, excluded.first), Max(row.last, excluded.last), row.count + excluded.count)
  }

  // ---------------------------------------------------------------------------------------------
  // Which placeholders are promoted

  /** Full-key contacts a placeholder may stand for. */
  function Matches(contacts: map<Key, Contact>, p: Key): set<Key>
  {
    set k | k in contacts && |k| == 64 && p <= k
  }

  predicate Promotable(contacts: map<Key, Contact>, full: Key, p: Key)
  {
    p in contacts && |p| < 64 && p <= full && p != full && |Matches(contacts, p)| == 1
  }

  /** For a full key that is present, being promotable is having that key as the only meaning. */
  lemma PromotableExactlyWhenUnambiguous(contacts: map<Key, Contact>, full: Key, p: Key)
    requires full in contacts && |full| == 64
    ensures Promotable(contacts, full, p) <==>
      p in contacts && |p| < 64 && p <= full && forall k :: k in contacts && |k| == 64 && p <= k ==> k == full
  {
    if p <= full {
      var m := Matches(contacts, p);
      assert full in m;
      if forall k :: k in m ==> k == full {
        assert m == {full};
        assert forall k :: k in contacts && |k| == 64 && p <= k ==> k in m;
      } else {
        var k :| k in m && k != full;
        SubsetSize({k, full}, m);
        assert |m| >= 2 && k in contacts && |k| == 64 && p <= k;
      }
    }
  }

  function Stored(contacts: map<Key, Contact>, key: Key): (r: seq<Key>)
    ensures r == [] || (r == [key] && key in contacts)
  {
    if key in contacts then [key] else []
  }

  /** SELECT ... WHERE full LIKE key || '%' ORDER BY length DESC: prefixes of at most n characters. */
  function Placeholders(contacts: map<Key, Contact>, full: Key, n: nat): seq<Key>
    requires n <= |full|
  {
    if n == 0 then Stored(contacts, full[..0]) else Stored(contacts, full[..n]) + Placeholders(contacts, full, n - 1)
  }

  /** Longest first. */
  predicate Descending(keys: seq<Key>)
  {
    forall i, j :: 0 <= i < j < |keys| ==> |keys[i]| > |keys[j]|
  }

  lemma {:induction false} PlaceholdersArePrefixes(contacts: map<Key, Contact>, full: Key, n: nat)
    requires n <= |full|
    ensures forall p :: p in Placeholders(contacts, full, n) <==> p in contacts && |p| <= n && p <= full
  {
    if n > 0 {
      PlaceholdersArePrefixes(contacts, full, n - 1);
    }
    forall p
      ensures p in Placeholders(contacts, full, n) <==> p in contacts && |p| <= n && p <= full
    {
      PrefixOfLength(full, p, n);
    }
  }

  lemma PrefixOfLength(full: Key, p: Key, n: nat)
    requires n <= |full|
    ensures |p| == n && p <= full <==> p == full[..n]
  {
  }

  lemma {:induction false} PlaceholdersLongestFirst(contacts: map<Key, Contact>, full: Key, n: nat)
    requires n <= |full|
    ensures Descending(Placeholders(contacts, full, n))
  {
    if n > 0 {
      PlaceholdersLongestFirst(contacts, full, n - 1);
      PlaceholdersArePrefixes(contacts, full, n - 1);
      LongerFirst(full[..n], Stored(contacts, full[..n]), Placeholders(contacts, full, n - 1));
    }
  }

  lemma LongerFirst(key: Key, first: seq<Key>, rest: seq<Key>)
    requires first == [] || first == [key]
    requires Descending(rest) && forall p :: p in rest ==> |p| < |key|
    ensures Descending(first + rest)
  {
    forall i, j | 0 <= i < j < |first + rest|
      ensures |(first + rest)[i]| > |(first + rest)[j]|
    {
      assert rest[j - |first|] in rest;
    }
  }

  ghost function Chosen(contacts: map<Key, Contact>, full: Key, rows: seq<Key>): seq<Key>
  {
    if rows == [] then []
    else
      var n := |rows| - 1;
      Chosen(contacts, full, rows[..n]) + (if Promotable(contacts, full, rows[n]) then [rows[n]] else [])
  }

  lemma {:induction false} ChosenAreThePromotable(contacts: map<Key, Contact>, full: Key, rows: seq<Key>)
    requires Descending(rows)
    ensures forall p :: p in Chosen(contacts, full, rows) <==> p in rows && Promotable(contacts, full, p)
    ensures Descending(Chosen(contacts, full, rows))
  {
    if rows != [] {
      var n := |rows| - 1;
      assert rows == rows[..n] + [rows[n]];
      ChosenAreThePromotable(contacts, full, rows[..n]);
      var before := Chosen(contacts, full, rows[..n]);
      assert forall i :: 0 <= i < |before| ==> before[i] in before;
    }
  }

  /** One more row considered; it is shorter than everything considered before it. */
  lemma ChosenStep(contacts: map<Key, Contact>, full: Key, rows: seq<Key>, i: nat)
    requires Descending(rows) && i < |rows|
    ensures Chosen(contacts, full, rows[..i + 1]) ==
      Chosen(contacts, full, rows[..i]) + (if Promotable(contacts, full, rows[i]) then [rows[i]] else [])
    ensures rows[i] !in Chosen(contacts, full, rows[..i])
    ensures forall p :: p in Chosen(contacts, full, rows[..i]) ==> |p| < 64
  {
    ChosenAreThePromotable(contacts, full, rows[..i]);
    assert rows[..i + 1][..i] == rows[..i];
  }

  // ---------------------------------------------------------------------------------------------
  // Child rows of several owners gathered under one of them

  function Row<K, V>(t: map<K, V>, k: K): Option<V>
  {
    if k in t then Some(t[k]) else None
  }

  /** What the owners' rows for one item amount to, joined in order. */
  function Gathered<I(==), V>(t: ChildTable<I, V>, owners: seq<Key>, item: I, join: (V, V) -> V): Option<V>
  {
    if owners == [] then None
    else
      var n := |owners| - 1;
      Join(Gathered(t, owners[..n], item, join), Row(t, ChildKey(owners[n], item)), join)
  }

  function Join<V>(a: Option<V>, b: Option<V>, join: (V, V) -> V): Option<V>
  {
    if a.None? then b else if b.None? then a else Some(join(a.value, b.value))
  }

  /** INSERT ... SELECT ... ON CONFLICT DO UPDATE, then DELETE of the old owner's rows. */
  function Moved<I(==), V>(t: ChildTable<I, V>, placeholder: Key, full: Key, join: (V, V) -> V): ChildTable<I, V>
  {
    var inserted := t + map k | k in t && k.owner == placeholder :: ChildKey(full, k.item) :=
      Join(Row(t, ChildKey(full, k.item)), Some(t[k]), join).value;
    map k | k in inserted && k.owner != placeholder :: inserted[k]
  }

  lemma MovedRow<I, V>(t: ChildTable<I, V>, p: Key, full: Key, join: (V, V) -> V, k: ChildKey<I>)
    requires p != full
    ensures Row(Moved(t, p, full, join), k) ==
      if k.owner == p then None
      else if k.owner == full then Join(Row(t, k), Row(t, ChildKey(p, k.item)), join)
      else Row(t, k)
  {
    if k.owner == full && ChildKey(p, k.item) in t {
      assert ChildKey(p, k.item).owner == p;
    }
  }

  /** full has the joined rows of itself and everything promoted, which own nothing any more. */
  ghost predicate GatheredInto<I(!new), V(!new)>(before: ChildTable<I, V>, after: ChildTable<I, V>, full: Key,
                                                 promoted: seq<Key>, join: (V, V) -> V)
  {
    forall k :: Row(after, k) ==
      if k.owner == full then Gathered(before, [full] + promoted, k.item, join)
      else if k.owner in promoted then None
      else Row(before, k)
  }

  lemma GatheredNone<I(!new), V(!new)>(t: ChildTable<I, V>, full: Key, join: (V, V) -> V)
    ensures GatheredInto(t, t, full, [], join)
  {
    forall k: ChildKey<I> | k.owner == full
      ensures Gathered(t, [full] + [], k.item, join) == Row(t, k)
    {
      assert [full] + [] == [full];
      assert Gathered(t, [full][..0], k.item, join) == None;
      assert k == ChildKey(full, k.item);
    }
  }

  lemma GatheredOneMore<I(!new), V(!new)>(before: ChildTable<I, V>, now: ChildTable<I, V>, full: Key,
                                          promoted: seq<Key>, p: Key, join: (V, V) -> V)
    requires GatheredInto(before, now, full, promoted, join) && p != full && p !in promoted
    ensures GatheredInto(before, Moved(now, p, full, join), full, promoted + [p], join)
  {
    forall k: ChildKey<I>
      ensures Row(Moved(now, p, full, join), k) ==
        if k.owner == full then Gathered(before, [full] + (promoted + [p]), k.item, join)
        else if k.owner in promoted + [p] then None
        else Row(before, k)
    {
      MovedRow(now, p, full, join, k);
      assert Row(now, ChildKey(p, k.item)) == Row(before, ChildKey(p, k.item));
      GatheredAppend(before, full, promoted, p, k.item, join);
    }
  }

  lemma GatheredAppend<I, V>(t: ChildTable<I, V>, full: Key, promoted: seq<Key>, p: Key, item: I, join: (V, V) -> V)
    ensures Gathered(t, [full] + (promoted + [p]), item, join) ==
      Join(Gathered(t, [full] + promoted, item, join), Row(t, ChildKey(p, item)), join)
  {
    assert ([full] + (promoted + [p]))[..|promoted| + 1] == [full] + promoted;
  }

  // ---------------------------------------------------------------------------------------------
  // Timestamps of several contacts merged into one

  function Merged(contacts: map<Key, Contact>, owners: seq<Key>, column: Contact -> Option<int>,
                  pick: (Option<int>, Option<int>) -> Option<int>): Option<int>
    requires forall k :: k in owners ==> k in contacts
  {
    if owners == [] then None
    else
      var n := |owners| - 1;
      pick(Merged(contacts, owners[..n], column, pick), column(contacts[owners[n]]))
  }

  lemma MergedOneMore(contacts: map<Key, Contact>, owners: seq<Key>, p: Key, column: Contact -> Option<int>,
                      pick: (Option<int>, Option<int>) -> Option<int>)
    requires p in contacts && forall k :: k in owners ==> k in contacts
    ensures forall k :: k in owners + [p] ==> k in contacts
    ensures Merged(contacts, owners + [p], column, pick) ==
      pick(Merged(contacts, owners, column, pick), column(contacts[p]))
  {
    assert (owners + [p])[..|owners|] == owners;
  }

  /** r is the latest known time among the owners, and unknown only when it is for all of them. */
  ghost predicate IsLatest(contacts: map<Key, Contact>, owners: seq<Key>, column: Contact -> Option<int>,
                           r: Option<int>)
    requires forall k :: k in owners ==> k in contacts
  {
    && (forall k :: k in owners && column(contacts[k]).Some? ==> r.Some? && column(contacts[k]).value <= r.value)
    && (r.Some? ==> exists k :: k in owners && column(contacts[k]) == r)
  }

  ghost predicate IsEarliest(contacts: map<Key, Contact>, owners: seq<Key>, column: Contact -> Option<int>,
                             r: Option<int>)
    requires forall k :: k in owners ==> k in contacts
  {
    && (forall k :: k in owners && column(contacts[k]).Some? ==> r.Some? && column(contacts[k]).value >= r.value)
    && (r.Some? ==> exists k :: k in owners && column(contacts[k]) == r)
  }

  lemma {:induction false} MergedIsLatest(contacts: map<Key, Contact>, owners: seq<Key>, column: Contact -> Option<int>)
    requires forall k :: k in owners ==> k in contacts
    ensures IsLatest(contacts, owners, column, Merged(contacts, owners, column, Later))
  {
    if owners != [] {
      var n := |owners| - 1;
      assert owners == owners[..n] + [owners[n]];
      MergedIsLatest(contacts, owners[..n], column);
    }
  }

  lemma {:induction false} MergedIsEarliest(contacts: map<Key, Contact>, owners: seq<Key>,
                                            column: Contact -> Option<int>)
    requires forall k :: k in owners ==> k in contacts
    ensures IsEarliest(contacts, owners, column, Merged(contacts, owners, column, Earlier))
  {
    if owners != [] {
      var n := |owners| - 1;
      assert owners == owners[..n] + [owners[n]];
      MergedIsEarliest(contacts, owners[..n], column);
    }
  }

  // ---------------------------------------------------------------------------------------------
  // The whole promotion, as a relation between the tables before and after it

  function LastSeen(c: Contact): Option<int> { c.lastSeen }

  function LastContacted(c: Contact): Option<int> { c.lastContacted }

  function FirstSeen(c: Contact): Option<int> { c.firstSeen }

  function LastReadAt(c: Contact): Option<int> { c.lastReadAt }

  ghost predicate MergedContact(contacts: map<Key, Contact>, owners: seq<Key>, row: Contact)
    requires owners != [] && forall k :: k in owners ==> k in contacts
  {
    && row.lastSeen == Merged(contacts, owners, LastSeen, Later)
    && row.lastContacted == Merged(contacts, owners, LastContacted, Later)
    && row.firstSeen == Merged(contacts, owners, FirstSeen, Earlier)
    && row.lastReadAt == Merged(contacts, owners, LastReadAt, Later)
    && row.name == contacts[owners[0]].name
  }

  ghost predicate ContactsMerged(before: map<Key, Contact>, after: map<Key, Contact>, full: Key, promoted: seq<Key>)
  {
    && full in before && full !in promoted && (forall k :: k in promoted ==> k in before)
    && (forall k :: k in after <==> k in before && k !in promoted)
    && (forall k :: k in after && k != full ==> after[k] == before[k])
    && MergedContact(before, [full] + promoted, after[full])
  }

  ghost predicate Promotes(before: Tables, after: Tables, full: Key, promoted: seq<Key>)
  {
    && ContactsMerged(before.contacts, after.contacts, full, promoted)
    && GatheredInto(before.names, after.names, full, promoted, JoinSpans)
    && GatheredInto(before.paths, after.paths, full, promoted, JoinHeard)
  }

  lemma PromotesNone(t: Tables, full: Key)
    requires full in t.contacts
    ensures Promotes(t, t, full, [])
  {
    ContactsMergedNone(t.contacts, full);
    GatheredNone(t.names, full, JoinSpans);
    GatheredNone(t.paths, full, JoinHeard);
  }

  function WithTimestampsOf(mine: Contact, other: Contact): Contact
  {
    mine.(lastSeen := Later(mine.lastSeen, other.lastSeen),
          lastContacted := Later(mine.lastContacted, other.lastContacted),
          firstSeen := Earlier(mine.firstSeen, other.firstSeen),
          lastReadAt := Later(mine.lastReadAt, other.lastReadAt))
  }

  lemma ContactsMergedNone(contacts: map<Key, Contact>, full: Key)
    requires full in contacts
    ensures ContactsMerged(contacts, contacts, full, [])
  {
    var none: seq<Key> := [];
    assert [full] + none == none + [full];
    MergedOneMore(contacts, none, full, LastSeen, Later);
    MergedOneMore(contacts, none, full, LastContacted, Later);
    MergedOneMore(contacts, none, full, FirstSeen, Earlier);
    MergedOneMore(contacts, none, full, LastReadAt, Later);
  }

  lemma MergedContactOneMore(contacts: map<Key, Contact>, owners: seq<Key>, row: Contact, p: Key)
    requires owners != [] && p in contacts && forall k :: k in owners ==> k in contacts
    requires MergedContact(contacts, owners, row)
    ensures forall k :: k in owners + [p] ==> k in contacts
    ensures MergedContact(contacts, owners + [p], WithTimestampsOf(row, contacts[p]))
  {
    MergedOneMore(contacts, owners, p, LastSeen, Later);
    MergedOneMore(contacts, owners, p, LastContacted, Later);
    MergedOneMore(contacts, owners, p, FirstSeen, Earlier);
    MergedOneMore(contacts, owners, p, LastReadAt, Later);
  }

  lemma ContactsMergedOneMore(before: map<Key, Contact>, now: map<Key, Contact>, full: Key, promoted: seq<Key>, p: Key)
    requires ContactsMerged(before, now, full, promoted) && p in before && p != full && p !in promoted
    ensures ContactsMerged(before, now[full := WithTimestampsOf(now[full], before[p])] - {p}, full, promoted + [p])
  {
    MergedContactOneMore(before, [full] + promoted, now[full], p);
    assert [full] + promoted + [p] == [full] + (promoted + [p]);
  }

  /** Removing placeholders does not change what any key could mean. */
  lemma SameMatches(before: map<Key, Contact>, now: map<Key, Contact>, full: Key, promoted: seq<Key>, p: Key)
    requires ContactsMerged(before, now, full, promoted) && forall k :: k in promoted ==> |k| < 64
    ensures Matches(now, p) == Matches(before, p)
  {
  }

  // ---------------------------------------------------------------------------------------------
  // The repository

  class ContactRepository {
    var contacts: map<Key, Contact>
    var names: ChildTable<string, Span>
    var paths: ChildTable<PathItem, Heard>

    ghost function View(): Tables
      reads this
    {
      Tables(contacts, names, paths)
    }

    /** One placeholder: child rows, then timestamps, then its own row. */
    method Absorb(placeholder: Key, row: Contact, full: Key, ghost before: Tables, ghost promoted: seq<Key>)
      requires Promotes(before, View(), full, promoted)
      requires placeholder in before.contacts && placeholder != full && placeholder !in promoted
      requires row == before.contacts[placeholder]
      modifies this
      ensures Promotes(before, View(), full, promoted + [placeholder])
    {
      GatheredOneMore(before.names, names, full, promoted, placeholder, JoinSpans);
      GatheredOneMore(before.paths, paths, full, promoted, placeholder, JoinHeard);
      ContactsMergedOneMore(before.contacts, contacts, full, promoted, placeholder);
      names := Moved(names, placeholder, full, JoinSpans);
      paths := Moved(paths, placeholder, full, JoinHeard);
      contacts := contacts[full := WithTimestampsOf(contacts[full], row)];
      contacts := contacts - {placeholder};
    }

    /** Skips a row that could mean another full key, or none. */
    method Consider(placeholder: Key, row: Contact, full: Key, promoted: seq<Key>, ghost before: Tables)
      returns (now: seq<Key>)
      requires Promotes(before, View(), full, promoted)
      requires placeholder in before.contacts && placeholder !in promoted && row == before.contacts[placeholder]
      requires |placeholder| < 64 && placeholder <= full && forall p :: p in promoted ==> |p| < 64
      modifies this
      ensures now == promoted + (if Promotable(before.contacts, full, placeholder) then [placeholder] else [])
      ensures Promotes(before, View(), full, now)
    {
      SameMatches(before.contacts, contacts, full, promoted, placeholder);
      now := promoted;
      if placeholder != full && |Matches(contacts, placeholder)| == 1 {
        Absorb(placeholder, row, full, before, promoted);
        now := promoted + [placeholder];
      } else {
        assert promoted + [] == promoted;
      }
    }

    /** The callers guarantee that the full-key contact exists. */
    method PromotePrefixPlaceholders(fullKey: string) returns (promoted: seq<Key>)
      requires Lower(fullKey) in contacts
      modifies this
      ensures Promotes(old(View()), View(), Lower(fullKey), promoted)
      ensures forall p :: p in promoted <==> Promotable(old(contacts), Lower(fullKey), p)
      ensures Descending(promoted)
    {
      var full := Lower(fullKey);
      var longest := if |full| < 64 then |full| else 63;
      var rows := Placeholders(contacts, full, longest);
      PlaceholdersArePrefixes(contacts, full, longest);
      PlaceholdersLongestFirst(contacts, full, longest);
      ChosenAreThePromotable(contacts, full, rows);
      promoted := PromoteEach(rows, full);
    }

    method PromoteEach(rows: seq<Key>, full: Key) returns (promoted: seq<Key>)
      requires full in contacts && Descending(rows)
      requires forall p :: p in rows ==> p in contacts && |p| < 64 && p <= full
      modifies this
      ensures Promotes(old(View()), View(), full, promoted)
      ensures promoted == Chosen(old(contacts), full, rows)
    {
      var snapshot := contacts;
      promoted := [];
      PromotesNone(View(), full);
      var i := 0;
      while i < |rows|
        invariant 0 <= i <= |rows|
        invariant Promotes(old(View()), View(), full, promoted)
        invariant promoted == Chosen(snapshot, full, rows[..i])
      {
        ChosenStep(snapshot, full, rows, i);
        assert rows[i] in rows;
        promoted := Consider(rows[i], snapshot[rows[i]], full, promoted, old(View()));
        i := i + 1;
      }
      assert rows[..i] == rows;
    }
  }

  // ---------------------------------------------------------------------------------------------
  // What a promotion keeps

  /** The full key ends with the extreme times over itself and everything merged into it. */
  lemma TimesAreTheExtremes(before: Tables, after: Tables, full: Key, promoted: seq<Key>)
    requires Promotes(before, after, full, promoted)
    ensures full in after.contacts && forall k :: k in [full] + promoted ==> k in before.contacts
    ensures IsLatest(before.contacts, [full] + promoted, LastSeen, after.contacts[full].lastSeen)
    ensures IsLatest(before.contacts, [full] + promoted, LastContacted, after.contacts[full].lastContacted)
    ensures IsEarliest(before.contacts, [full] + promoted, FirstSeen, after.contacts[full].firstSeen)
    ensures IsLatest(before.contacts, [full] + promoted, LastReadAt, after.contacts[full].lastReadAt)
  {
    var owners := [full] + promoted;
    MergedIsLatest(before.contacts, owners, LastSeen);
    MergedIsLatest(before.contacts, owners, LastContacted);
    MergedIsEarliest(before.contacts, owners, FirstSeen);
    MergedIsLatest(before.contacts, owners, LastReadAt);
  }

  /** Promoted placeholders are gone, with their child rows, and the full key keeps its other columns. */
  lemma PromotedAreGone(before: Tables, after: Tables, full: Key, promoted: seq<Key>, p: Key, name: string,
                         path: PathItem)
    requires Promotes(before, after, full, promoted) && p in promoted
    ensures p !in after.contacts && ChildKey(p, name) !in after.names && ChildKey(p, path) !in after.paths
    ensures full in after.contacts && full in before.contacts
    ensures after.contacts[full].name == before.contacts[full].name
  {
    assert Row(after.names, ChildKey(p, name)) == None && Row(after.paths, ChildKey(p, path)) == None;
  }

  /** The same times column by column: a bound over everything merged, and one of the values merged. */
  lemma TimesOnColumns(before: Tables, after: Tables, full: Key, promoted: seq<Key>, k: Key)
    requires Promotes(before, after, full, promoted) && (k == full || k in promoted)
    ensures k in before.contacts && full in after.contacts
    ensures var old_, now := before.contacts[k], after.contacts[full];
      && (old_.lastSeen.Some? ==> now.lastSeen.Some? && now.lastSeen.value >= old_.lastSeen.value)
      && (old_.lastContacted.Some? ==> now.lastContacted.Some? && now.lastContacted.value >= old_.lastContacted.value)
      && (old_.firstSeen.Some? ==> now.firstSeen.Some? && now.firstSeen.value <= old_.firstSeen.value)
      && (old_.lastReadAt.Some? ==> now.lastReadAt.Some? && now.lastReadAt.value >= old_.lastReadAt.value)
  {
    TimesAreTheExtremes(before, after, full, promoted);
    assert k in [full] + promoted;
  }

  /** Whatever is neither the full key nor promoted keeps its contact row and its child rows. */
  lemma OthersUntouched(before: Tables, after: Tables, full: Key, promoted: seq<Key>, other: Key, name: string,
                        path: PathItem)
    requires Promotes(before, after, full, promoted) && other != full && other !in promoted
    ensures Row(after.contacts, other) == Row(before.contacts, other)
    ensures Row(after.names, ChildKey(other, name)) == Row(before.names, ChildKey(other, name))
    ensures Row(after.paths, ChildKey(other, path)) == Row(before.paths, ChildKey(other, path))
  {
  }

  /** Rows of a table for one item, by owner. */
  ghost predicate Owns<I, V>(t: ChildTable<I, V>, owners: seq<Key>, item: I, k: Key)
  {
    k in owners && ChildKey(k, item) in t
  }

  /** r spans exactly the owners' rows for an item: both ends are bounds, and both are attained. */
  ghost predicate IsExtent<I, V>(t: ChildTable<I, V>, owners: seq<Key>, item: I, first: V -> int, last: V -> int,
                                 r: Option<V>)
  {
    && (r.Some? <==> exists k :: Owns(t, owners, item, k))
    && (forall k :: Owns(t, owners, item, k) ==>
        first(r.value) <= first(t[ChildKey(k, item)]) && last(t[ChildKey(k, item)]) <= last(r.value))
    && (r.Some? ==> exists k :: Owns(t, owners, item, k) && first(r.value) == first(t[ChildKey(k, item)]))
    && (r.Some? ==> exists k :: Owns(t, owners, item, k) && last(r.value) == last(t[ChildKey(k, item)]))
  }

  lemma OwnsOneMore<I, V>(t: ChildTable<I, V>, owners: seq<Key>, item: I, k: Key)
    ensures forall x :: Owns(t, owners + [k], item, x) <==>
      (Owns(t, owners, item, x) || (x == k && ChildKey(k, item) in t))
  {
  }

  /** One owner more: its row, if there is one, joins the extent. */
  lemma ExtentGrows<I, V>(t: ChildTable<I, V>, owners: seq<Key>, item: I, join: (V, V) -> V, first: V -> int,
                          last: V -> int, r: Option<V>, k: Key)
    requires IsExtent(t, owners, item, first, last, r)
    requires r.Some? && ChildKey(k, item) in t ==>
      var both := join(r.value, t[ChildKey(k, item)]);
      first(both) == Min(first(r.value), first(t[ChildKey(k, item)])) &&
      last(both) == Max(last(r.value), last(t[ChildKey(k, item)]))
    ensures IsExtent(t, owners + [k], item, first, last, Join(r, Row(t, ChildKey(k, item)), join))
  {
    var now := Join(r, Row(t, ChildKey(k, item)), join);
    OwnsOneMore(t, owners, item, k);
    if r.Some? {
      var a :| Owns(t, owners, item, a) && first(r.value) == first(t[ChildKey(a, item)]);
      var b :| Owns(t, owners, item, b) && last(r.value) == last(t[ChildKey(b, item)]);
      assert Owns(t, owners + [k], item, a) && Owns(t, owners + [k], item, b);
    }
    if ChildKey(k, item) in t {
      assert Owns(t, owners + [k], item, k);
    }
    assert now.Some? ==> exists x :: Owns(t, owners + [k], item, x) && first(now.value) == first(t[ChildKey(x, item)]);
    assert now.Some? ==> exists x :: Owns(t, owners + [k], item, x) && last(now.value) == last(t[ChildKey(x, item)]);
  }

  lemma {:induction false} GatheredExtent<I, V(!new)>(t: ChildTable<I, V>, owners: seq<Key>, item: I,
                                                      join: (V, V) -> V, first: V -> int, last: V -> int)
    requires forall a, b :: first(join(a, b)) == Min(first(a), first(b)) && last(join(a, b)) == Max(last(a), last(b))
    ensures IsExtent(t, owners, item, first, last, Gathered(t, owners, item, join))
  {
    if owners != [] {
      var n := |owners| - 1;
      assert owners == owners[..n] + [owners[n]];
      GatheredExtent(t, owners[..n], item, join, first, last);
      ExtentGrows(t, owners[..n], item, join, first, last, Gathered(t, owners[..n], item, join), owners[n]);
    }
  }

  /** Times of the full key's name and path rows are the extremes over the rows merged into them. */
  lemma ChildTimesAreTheExtremes(before: Tables, after: Tables, full: Key, promoted: seq<Key>, name: string,
                                 path: PathItem)
    requires Promotes(before, after, full, promoted)
    ensures IsExtent(before.names, [full] + promoted, name, (s: Span) => s.first, (s: Span) => s.last,
      Row(after.names, ChildKey(full, name)))
    ensures IsExtent(before.paths, [full] + promoted, path, (h: Heard) => h.first, (h: Heard) => h.last,
      Row(after.paths, ChildKey(full, path)))
  {
    GatheredExtent(before.names, [full] + promoted, name, JoinSpans, (s: Span) => s.first, (s: Span) => s.last);
    GatheredExtent(before.paths, [full] + promoted, path, JoinHeard, (h: Heard) => h.first, (h: Heard) => h.last);
    assert Row(after.names, ChildKey(full, name)) == Gathered(before.names, [full] + promoted, name, JoinSpans);
    assert Row(after.paths, ChildKey(full, path)) == Gathered(before.paths, [full] + promoted, path, JoinHeard);
  }

  // Conservation of heard_count

  /** Heard counts of one path and hop count, by owner. */
  ghost function Counts(t: ChildTable<PathItem, Heard>, item: PathItem): map<Key, int>
  {
    map k | k in t && k.item == item :: k.owner := t[k].count
  }

  ghost function Sum(m: map<Key, int>): int
    decreases |m|
  {
    if m == map[] then 0 else var k :| k in m; m[k] + Sum(m - {k})
  }

  lemma {:induction false} SumWithout(m: map<Key, int>, k: Key)
    requires k in m
    ensures Sum(m) == m[k] + Sum(m - {k})
    decreases |m|
  {
    var x :| x in m && Sum(m) == m[x] + Sum(m - {x});
    if x != k {
      SumWithout(m - {x}, k);
      SumWithout(m - {k}, x);
      assert m - {x} - {k} == m - {k} - {x};
    }
  }

  /** Sum(SELECT heard_count ... WHERE path_hex AND path_len) over every owner. */
  ghost function TotalHeard(t: ChildTable<PathItem, Heard>, item: PathItem): int
  {
    Sum(Counts(t, item))
  }

  lemma MoveCounts(m: map<Key, int>, p: Key, full: Key)
    requires p in m && p != full
    ensures Sum((m - {p})[full := (if full in m then m[full] else 0) + m[p]]) == Sum(m)
  {
    var moved := (m - {p})[full := (if full in m then m[full] else 0) + m[p]];
    SumWithout(m, p);
    SumWithout(moved, full);
    if full in m {
      SumWithout(m - {p}, full);
      assert moved - {full} == m - {p} - {full};
    } else {
      assert moved - {full} == m - {p};
    }
  }

  lemma CountsJoin(a: Option<Heard>, b: Option<Heard>)
    ensures CountRow(Join(a, b, JoinHeard)) == AddCounts(CountRow(a), CountRow(b))
  {
  }

  function AddCounts(a: Option<int>, b: Option<int>): Option<int>
  {
    if a.None? then b else if b.None? then a else Some(a.value + b.value)
  }

  lemma MovedCount(t: ChildTable<PathItem, Heard>, p: Key, full: Key, item: PathItem, o: Key)
    requires p != full
    ensures var m := Counts(t, item);
      Row(Counts(Moved(t, p, full, JoinHeard), item), o) ==
        if o == p then None else if o == full then AddCounts(Row(m, full), Row(m, p)) else Row(m, o)
  {
    var moved := Moved(t, p, full, JoinHeard);
    MovedRow(t, p, full, JoinHeard, ChildKey(o, item));
    CountsRow(moved, item, o);
    CountsRow(t, item, o);
    CountsRow(t, item, p);
    CountsJoin(Row(t, ChildKey(o, item)), Row(t, ChildKey(p, item)));
  }

  lemma MovedRows(m: map<Key, int>, after: map<Key, int>, p: Key, full: Key)
    requires p != full && p in m
    requires forall o ::
      Row(after, o) == if o == p then None else if o == full then AddCounts(Row(m, full), Row(m, p)) else Row(m, o)
    ensures after == (m - {p})[full := (if full in m then m[full] else 0) + m[p]]
  {
    var moved := (m - {p})[full := (if full in m then m[full] else 0) + m[p]];
    forall o
      ensures Row(after, o) == Row(moved, o)
    {
      assert Row(after, o) ==
        if o == p then None else if o == full then AddCounts(Row(m, full), Row(m, p)) else Row(m, o);
    }
    SameRows(after, moved);
  }

  /** Moving one owner's count onto another keeps the sum. */
  lemma MovedSum(m: map<Key, int>, after: map<Key, int>, p: Key, full: Key)
    requires p != full
    requires forall o ::
      Row(after, o) == if o == p then None else if o == full then AddCounts(Row(m, full), Row(m, p)) else Row(m, o)
    ensures Sum(after) == Sum(m)
  {
    if p in m {
      MoveCounts(m, p, full);
      MovedRows(m, after, p, full);
    } else {
      SameRows(after, m);
    }
  }

  lemma MovedKeepsTotal(t: ChildTable<PathItem, Heard>, p: Key, full: Key, item: PathItem)
    requires p != full
    ensures TotalHeard(Moved(t, p, full, JoinHeard), item) == TotalHeard(t, item)
  {
    forall o: Key
      ensures var m := Counts(t, item);
        Row(Counts(Moved(t, p, full, JoinHeard), item), o) ==
          if o == p then None else if o == full then AddCounts(Row(m, full), Row(m, p)) else Row(m, o)
    {
      MovedCount(t, p, full, item, o);
    }
    MovedSum(Counts(t, item), Counts(Moved(t, p, full, JoinHeard), item), p, full);
  }

  function CountRow(r: Option<Heard>): Option<int>
  {
    if r.None? then None else Some(r.value.count)
  }

  lemma CountsRow(t: ChildTable<PathItem, Heard>, item: PathItem, o: Key)
    ensures Row(Counts(t, item), o) == CountRow(Row(t, ChildKey(o, item)))
  {
    if ChildKey(o, item) in t {
      assert ChildKey(o, item).item == item;
    }
  }

  lemma SameRows<K, V>(a: map<K, V>, b: map<K, V>)
    requires forall k :: Row(a, k) == Row(b, k)
    ensures a == b
  {
    forall k
      ensures k in a <==> k in b
      ensures k in a && k in b ==> a[k] == b[k]
    {
      assert Row(a, k) == Row(b, k);
    }
  }

  ghost function MovedAll(t: ChildTable<PathItem, Heard>, full: Key, promoted: seq<Key>): ChildTable<PathItem, Heard>
  {
    if promoted == [] then t
    else
      var n := |promoted| - 1;
      Moved(MovedAll(t, full, promoted[..n]), promoted[n], full, JoinHeard)
  }

  lemma {:induction false} MovedAllGathers(t: ChildTable<PathItem, Heard>, full: Key, promoted: seq<Key>)
    requires full !in promoted && Descending(promoted)
    ensures GatheredInto(t, MovedAll(t, full, promoted), full, promoted, JoinHeard)
  {
    if promoted == [] {
      GatheredNone(t, full, JoinHeard);
    } else {
      var n := |promoted| - 1;
      var rest, last := promoted[..n], promoted[n];
      assert promoted == rest + [last];
      assert last in promoted && last !in rest;
      MovedAllGathers(t, full, rest);
      GatheredOneMore(t, MovedAll(t, full, rest), full, rest, last, JoinHeard);
    }
  }

  lemma {:induction false} MovedAllKeepsTotal(t: ChildTable<PathItem, Heard>, full: Key, promoted: seq<Key>,
                                              item: PathItem)
    requires full !in promoted
    ensures TotalHeard(MovedAll(t, full, promoted), item) == TotalHeard(t, item)
  {
    if promoted != [] {
      var n := |promoted| - 1;
      assert promoted[n] in promoted;
      MovedAllKeepsTotal(t, full, promoted[..n], item);
      MovedKeepsTotal(MovedAll(t, full, promoted[..n]), promoted[n], full, item);
    }
  }

  /** Promotion neither loses nor invents a hearing of any path. */
  lemma HeardCountIsConserved(before: Tables, after: Tables, full: Key, promoted: seq<Key>, item: PathItem)
    requires Promotes(before, after, full, promoted) && Descending(promoted)
    ensures TotalHeard(after.paths, item) == TotalHeard(before.paths, item)
  {
    MovedAllGathers(before.paths, full, promoted);
    MovedAllKeepsTotal(before.paths, full, promoted, item);
    SameRows(after.paths, MovedAll(before.paths, full, promoted));
  }

  /** Nothing is left to promote. */
  lemma SecondRunPromotesNothing(before: Tables, after: Tables, full: Key, promoted: seq<Key>, p: Key)
    requires Promotes(before, after, full, promoted)
    requires forall k :: k in promoted <==> Promotable(before.contacts, full, k)
    ensures !Promotable(after.contacts, full, p)
  {
    SameMatches(before.contacts, after.contacts, full, promoted, p);
  }
}
