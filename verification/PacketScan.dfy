/**
 The keyset-paginated scan over undecrypted packets. The table may change arbitrarily between two
 batches: versions(r) is what the r-th read sees.
 */
module PacketScan {
  import opened Common
  import opened RawPackets
  import opened SetOrder

  function Beyond(s: set<nat>, last: int): set<nat>
  {
    set i | i in s && i > last
  }

  /** WHERE id > last ORDER BY id ASC LIMIT limit; a negative limit means no limit. */
  function Page(s: set<nat>, last: int, limit: int): (page: seq<nat>)
  {
    var all := Ascending(Beyond(s, last));
    if limit < 0 || |all| <= limit then all else all[..limit]
  }

  lemma PrefixCovers(all: seq<nat>, n: nat, x: nat)
    requires Increasing(all) && 0 < n <= |all| && x in all && x <= all[n - 1]
    ensures x in all[..n]
  {
    var k :| 0 <= k < |all| && all[k] == x;
    assert k < n;
    assert all[..n][k] == x;
  }

  /** A page is an increasing run of matches ... */
  lemma PageMatches(s: set<nat>, last: int, limit: int)
    ensures Increasing(Page(s, last, limit))
    ensures forall x :: x in Page(s, last, limit) ==> x in s && x > last
    ensures limit >= 0 ==> |Page(s, last, limit)| <= limit
    ensures limit < 0 || |Page(s, last, limit)| < limit ==> forall x :: x in s && x > last ==> x in Page(s, last, limit)
  {
    var all := Ascending(Beyond(s, last));
    AscendingSorts(Beyond(s, last));
    forall x | x in Page(s, last, limit)
      ensures x in Beyond(s, last)
    {
      assert x in all;
    }
  }

  /** ... leaving none out below its last one; an empty page means there is none. */
  lemma PageCovers(s: set<nat>, last: int, limit: int, x: nat)
    requires limit != 0 && x in s && x > last
    ensures var page := Page(s, last, limit);
      page != [] && (x <= page[|page| - 1] ==> x in page)
  {
    var all := Ascending(Beyond(s, last));
    AscendingSorts(Beyond(s, last));
    assert x in Beyond(s, last);
    assert x in all;
    var page := Page(s, last, limit);
    if page != all && x <= page[|page| - 1] {
      PrefixCovers(all, limit, x);
    }
  }

  datatype Scanned = Scanned(ids: seq<Id>, finished: bool)

  /** What the scan yields from batch r on, watched up to batch number `rounds`. */
  function Scan(versions: nat -> map<Id, Row>, batchSize: int, rounds: nat, r: nat, last: int): Scanned
    decreases rounds - r
  {
    if r >= rounds then Scanned([], false)
    else
      var page := Page(Undecrypted(versions(r)), last, batchSize);
      if page == [] then Scanned([], true)
      else
        var rest := Scan(versions, batchSize, rounds, r + 1, page[|page| - 1]);
        Scanned(page + rest.ids, rest.finished)
  }

  /** One page more of the scan. */
  lemma ScanStep(versions: nat -> map<Id, Row>, batchSize: int, rounds: nat, r: nat, last: int, page: seq<nat>)
    requires r < rounds && page == Page(Undecrypted(versions(r)), last, batchSize)
    ensures var scan := Scan(versions, batchSize, rounds, r, last);
      if page == [] then scan == Scanned([], true)
      else
        var rest := Scan(versions, batchSize, rounds, r + 1, page[|page| - 1]);
        scan == Scanned(page + rest.ids, rest.finished)
  {
  }

  /** The source's loop. */
  method StreamUndecrypted(versions: nat -> map<Id, Row>, batchSize: int, rounds: nat)
    returns (out: seq<Id>, finished: bool)
    ensures Scanned(out, finished) == Scan(versions, batchSize, rounds, 0, -1)
  {
    out, finished := [], false;
    var last: int := -1;
    var r: nat := 0;
    ghost var total := Scan(versions, batchSize, rounds, 0, -1);
    ghost var rest := total;
    while r < rounds
      invariant r <= rounds
      invariant rest == Scan(versions, batchSize, rounds, r, last)
      invariant total.ids == out + rest.ids && total.finished == rest.finished
    {
      var page := Page(Undecrypted(versions(r)), last, batchSize);
      ScanStep(versions, batchSize, rounds, r, last, page);
      if page == [] {
        finished := true;
        return;
      }
      last := page[|page| - 1];
      rest := Scan(versions, batchSize, rounds, r + 1, last);
      Assoc(out, page, rest.ids);
      out := out + page;
      r := r + 1;
    }
    assert rest == Scanned([], false);
  }

  lemma Assoc(a: seq<Id>, b: seq<Id>, c: seq<Id>)
    ensures a + (b + c) == (a + b) + c
  {
  }

  lemma JoinIncreasing(page: seq<nat>, rest: seq<nat>)
    requires page != [] && Increasing(page) && Increasing(rest)
    requires forall x :: x in rest ==> x > page[|page| - 1]
    ensures Increasing(page + rest)
  {
    forall i, j | 0 <= i < j < |page + rest|
      ensures (page + rest)[i] < (page + rest)[j]
    {
      if i < |page| <= j {
        assert rest[j - |page|] in rest;
        assert page[i] <= page[|page| - 1];
      }
    }
  }

  ghost predicate AllAbove(ids: seq<nat>, last: int)
  {
    forall x :: x in ids ==> x > last
  }

  lemma JoinPages(page: seq<nat>, rest: seq<nat>, last: int)
    requires page != [] && Increasing(page) && AllAbove(page, last)
    requires Increasing(rest) && AllAbove(rest, page[|page| - 1])
    ensures Increasing(page + rest) && AllAbove(page + rest, last)
  {
    JoinIncreasing(page, rest);
    assert page[|page| - 1] in page;
  }

  /** Ids come out strictly increasing, so without repeats. */
  lemma {:induction false} ScanIncreases(versions: nat -> map<Id, Row>, batchSize: int, rounds: nat, r: nat, last: int)
    ensures Increasing(Scan(versions, batchSize, rounds, r, last).ids)
    ensures AllAbove(Scan(versions, batchSize, rounds, r, last).ids, last)
    decreases rounds - r
  {
    if r < rounds {
      var page := Page(Undecrypted(versions(r)), last, batchSize);
      PageMatches(Undecrypted(versions(r)), last, batchSize);
      ScanStep(versions, batchSize, rounds, r, last, page);
      if page != [] {
        var newLast := page[|page| - 1];
        ScanIncreases(versions, batchSize, rounds, r + 1, newLast);
        JoinPages(page, Scan(versions, batchSize, rounds, r + 1, newLast).ids, last);
      }
    }
  }

  ghost predicate UndecryptedAtSomeRead(versions: nat -> map<Id, Row>, rounds: nat, r: nat, id: Id)
  {
    exists q: nat :: r <= q < rounds && id in Undecrypted(versions(q))
  }

  /** Everything yielded was undecrypted when it was read. */
  lemma {:induction false} ScanYieldsUndecrypted(
    versions: nat -> map<Id, Row>, batchSize: int, rounds: nat, r: nat, last: int, id: Id)
    requires id in Scan(versions, batchSize, rounds, r, last).ids
    ensures UndecryptedAtSomeRead(versions, rounds, r, id)
    decreases rounds - r
  {
    var page := Page(Undecrypted(versions(r)), last, batchSize);
    PageMatches(Undecrypted(versions(r)), last, batchSize);
    ScanStep(versions, batchSize, rounds, r, last, page);
    if id in page {
      assert id in Undecrypted(versions(r));
    } else {
      ScanYieldsUndecrypted(versions, batchSize, rounds, r + 1, page[|page| - 1], id);
    }
  }

  /** A finished scan missed nothing that stayed present and undecrypted throughout. */
  lemma {:induction false} ScanMissesNothing(
    versions: nat -> map<Id, Row>, batchSize: int, rounds: nat, r: nat, last: int, id: Id)
    requires Scan(versions, batchSize, rounds, r, last).finished && batchSize != 0
    requires id > last && forall q: nat :: r <= q < rounds ==> id in Undecrypted(versions(q))
    ensures id in Scan(versions, batchSize, rounds, r, last).ids
    decreases rounds - r
  {
    PageCovers(Undecrypted(versions(r)), last, batchSize, id);
    var page := Page(Undecrypted(versions(r)), last, batchSize);
    if id > page[|page| - 1] {
      ScanMissesNothing(versions, batchSize, rounds, r + 1, page[|page| - 1], id);
    }
  }

  /** No version has a row outside the universe: nothing new is inserted. */
  ghost predicate NoInserts(versions: nat -> map<Id, Row>, universe: set<Id>)
  {
    forall q: nat :: versions(q).Keys <= universe
  }

  ghost predicate AtMostBeyond(universe: set<Id>, last: int, left: nat)
  {
    |Beyond(universe, last)| <= left
  }

  /** With at most `left` ids beyond the cursor, `left` + 1 more batches are enough. */
  lemma {:induction false} ScanEndsWithin(
    versions: nat -> map<Id, Row>, batchSize: int, rounds: nat, r: nat, last: int, universe: set<Id>, left: nat)
    requires NoInserts(versions, universe) && AtMostBeyond(universe, last, left) && r + left < rounds
    ensures Scan(versions, batchSize, rounds, r, last).finished
    decreases left
  {
    var page := Page(Undecrypted(versions(r)), last, batchSize);
    ScanStep(versions, batchSize, rounds, r, last, page);
    if page != [] {
      PageAdvances(versions(r), last, batchSize, universe, left);
      ScanEndsWithin(versions, batchSize, rounds, r + 1, page[|page| - 1], universe, left - 1);
    }
  }

  /** Without insertions the scan ends, for every batch size. */
  lemma ScanEndsWithoutInserts(
    versions: nat -> map<Id, Row>, batchSize: int, rounds: nat, r: nat, last: int, universe: set<Id>)
    requires NoInserts(versions, universe) && rounds - r > |Beyond(universe, last)|
    ensures Scan(versions, batchSize, rounds, r, last).finished
  {
    ScanEndsWithin(versions, batchSize, rounds, r, last, universe, |Beyond(universe, last)|);
  }

  /** A page that is not empty leaves fewer ids beyond it. */
  lemma PageAdvances(rows: map<Id, Row>, last: int, batchSize: int, universe: set<Id>, left: nat)
    requires rows.Keys <= universe && Page(Undecrypted(rows), last, batchSize) != []
    requires AtMostBeyond(universe, last, left)
    ensures var page := Page(Undecrypted(rows), last, batchSize);
      left > 0 && AtMostBeyond(universe, page[|page| - 1], left - 1)
  {
    var page := Page(Undecrypted(rows), last, batchSize);
    PageMatches(Undecrypted(rows), last, batchSize);
    var x := page[|page| - 1];
    assert x in page;
    assert x in Undecrypted(rows) && x in rows.Keys;
    Advances(universe, last, x);
  }

  lemma Advances(universe: set<Id>, last0: int, last: nat)
    requires last in universe && last0 < last
    ensures |Beyond(universe, last)| < |Beyond(universe, last0)|
  {
    assert last in Beyond(universe, last0) && last !in Beyond(universe, last);
    ProperSubsetSize(Beyond(universe, last), Beyond(universe, last0));
  }
}
