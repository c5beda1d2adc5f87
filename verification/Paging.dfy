// Listing retained queries page by page, newest first, while queries come and go.
module Paging {
  import opened Options

  // Where a record stands in the listing. Identifiers are taken as numbers in the order of
  // their texts.
  datatype Key = Key(created: int, id: nat) {
    predicate NewerThan(o: Key) { created > o.created || (created == o.created && id > o.id) }
  }

  datatype Record = Record(key: Key, session: nat, state: nat)

  datatype Filter = Filter(session: Option<nat>, states: set<nat>) {
    predicate Accepts(r: Record) {
      (session.Some? ==> r.session == session.value) && (states != {} ==> r.state in states)
    }
  }

  // Whether a record belongs on a page that continues after the cursor.
  predicate Wanted(r: Record, filter: Filter, cursor: Option<Key>) {
    filter.Accepts(r) && (cursor.Some? ==> cursor.value.NewerThan(r.key))
  }

  ghost predicate Descending(rs: seq<Record>) {
    forall i, j | 0 <= i < j < |rs| :: rs[i].key.NewerThan(rs[j].key)
  }

  ghost predicate DistinctKeys(rs: seq<Record>) {
    forall i, j | 0 <= i < j < |rs| :: rs[i].key != rs[j].key
  }

  // ----- sorting

  function Insert(rs: seq<Record>, r: Record): seq<Record> {
    if rs == [] || r.key.NewerThan(rs[0].key) then [r] + rs else [rs[0]] + Insert(rs[1..], r)
  }

  lemma {:induction false} InsertKeepsOrder(rs: seq<Record>, r: Record)
    requires Descending(rs) && forall x | x in rs :: x.key != r.key
    ensures Descending(Insert(rs, r))
    ensures forall x :: x in Insert(rs, r) <==> x == r || x in rs
    ensures |Insert(rs, r)| == |rs| + 1
  {
    if rs == [] {
    } else if r.key.NewerThan(rs[0].key) {
      Prepend(rs, r);
    } else {
      var rest := rs[1..];
      assert forall x :: x in rs <==> x == rs[0] || x in rest;
      InsertKeepsOrder(rest, r);
      Prepend(Insert(rest, r), rs[0]);
    }
  }

  lemma Prepend(rs: seq<Record>, r: Record)
    requires Descending(rs) && (rs != [] ==> r.key.NewerThan(rs[0].key))
    ensures Descending([r] + rs)
    ensures forall x :: x in [r] + rs <==> x == r || x in rs
  {
  }

  method SortNewestFirst(rs: seq<Record>) returns (sorted: seq<Record>)
    requires DistinctKeys(rs)
    ensures Descending(sorted) && |sorted| == |rs|
    ensures forall x :: x in sorted <==> x in rs
  {
    sorted := [];
    for i := 0 to |rs|
      invariant Descending(sorted) && |sorted| == i
      invariant forall x :: x in sorted <==> x in rs[..i]
    {
      InsertKeepsOrder(sorted, rs[i]);
      assert rs[..i + 1] == rs[..i] + [rs[i]];
      sorted := Insert(sorted, rs[i]);
    }
    assert rs[..|rs|] == rs;
  }

  // ----- one page

  // The page after a cursor: the newest of the wanted records, and a token exactly when
  // there are more of them.
  method ListQueries(records: seq<Record>, filter: Filter, pageSize: nat, cursor: Option<Key>)
    returns (page: seq<Record>, next: Option<Key>)
    requires DistinctKeys(records) && pageSize > 0
    ensures Descending(page) && |page| <= pageSize
    ensures forall r | r in page :: r in records && Wanted(r, filter, cursor)
    ensures forall r | r in records && Wanted(r, filter, cursor) && r !in page ::
      next.Some? && next.value.NewerThan(r.key)
    ensures next.Some? ==> |page| == pageSize && next.value == page[pageSize - 1].key
    ensures next.Some? ==> exists r :: r in records && Wanted(r, filter, cursor) && r !in page
  {
    var filtered: seq<Record> := [];
    for i := 0 to |records|
      invariant DistinctKeys(filtered)
      invariant forall r :: r in filtered <==> r in records[..i] && Wanted(r, filter, cursor)
    {
      assert records[..i + 1] == records[..i] + [records[i]];
      assert forall r | r in records[..i] :: r.key != records[i].key;
      if Wanted(records[i], filter, cursor) {
        filtered := filtered + [records[i]];
      }
    }
    assert records[..|records|] == records;
    filtered := SortNewestFirst(filtered);
    var limit := if |filtered| < pageSize + 1 then |filtered| else pageSize + 1;
    page := filtered[..if limit < pageSize then limit else pageSize];
    next := None;
    if limit > pageSize {
      next := Some(filtered[pageSize - 1].key);
      assert filtered[pageSize] in filtered && filtered[pageSize] !in page;
    }
    forall r | r in filtered && r !in page
      ensures next.Some? && next.value.NewerThan(r.key)
    {
      var i :| 0 <= i < |filtered| && filtered[i] == r;
      assert forall x | 0 <= x < |page| :: filtered[x] == page[x];
    }
  }

  // ----- following the tokens

  // A record that every call finds, whatever else is inserted or deleted in between.
  ghost predicate Throughout(found: seq<seq<Record>>, filter: Filter, key: Key) {
    forall k | 0 <= k < |found| :: Shows(found[k], filter, key)
  }

  ghost predicate Shows(records: seq<Record>, filter: Filter, key: Key) {
    exists r :: r in records && r.key == key && filter.Accepts(r)
  }

  ghost predicate Lists(listed: seq<Record>, key: Key) {
    exists r :: r in listed && r.key == key
  }

  // Follows page tokens through whatever each call finds retained. The listing never goes
  // back or repeats a record, and once it ends it has every record that was there throughout;
  // until then every page was full.
  method FollowTokens(found: seq<seq<Record>>, filter: Filter, pageSize: nat) returns (listed: seq<Record>,
        finished: bool)
    requires pageSize > 0 && forall k | 0 <= k < |found| :: DistinctKeys(found[k])
    ensures Descending(listed)
    ensures forall r | r in listed :: filter.Accepts(r) && exists k | 0 <= k < |found| :: r in found[k]
    ensures finished ==> forall key | Throughout(found, filter, key) :: Lists(listed, key)
    ensures if finished then |listed| <= |found| * pageSize else |listed| == |found| * pageSize
  {
    hide Throughout, Shows, Lists, DistinctKeys;
    listed, finished := [], false;
    var cursor: Option<Key> := None;
    for k := 0 to |found|
      invariant Descending(listed) && !finished && |listed| == k * pageSize
      invariant forall r | r in listed :: filter.Accepts(r) && exists j | 0 <= j < |found| :: r in found[j]
      invariant listed != [] ==> cursor == Some(listed[|listed| - 1].key)
      invariant listed == [] ==> cursor.None?
      invariant forall key | Throughout(found, filter, key) ::
          Lists(listed, key) || cursor.None? || cursor.value.NewerThan(key)
    {
      var page, next := ListQueries(found[k], filter, pageSize, cursor);
      ghost var before := listed;
      DescendingJoins(listed, page, filter, cursor);
      listed := listed + page;
      forall key | Throughout(found, filter, key)
        ensures Lists(listed, key) || (next.Some? && next.value.NewerThan(key))
      {
        AfterPage(found, filter, k, key, cursor, before, page, next);
      }
      OnePageMore(k, |found|, pageSize);
      if next.None? {
        finished := true;
        return;
      }
      cursor := next;
    }
  }

  lemma OnePageMore(k: nat, n: nat, pageSize: nat)
    requires k < n
    ensures (k + 1) * pageSize == k * pageSize + pageSize <= n * pageSize
  {
    assert n * pageSize == (k + 1) * pageSize + (n - k - 1) * pageSize;
  }

  lemma DescendingJoins(listed: seq<Record>, page: seq<Record>, filter: Filter, cursor: Option<Key>)
    requires Descending(listed) && Descending(page) && forall r | r in page :: Wanted(r, filter, cursor)
    requires listed != [] ==> cursor == Some(listed[|listed| - 1].key)
    ensures Descending(listed + page)
  {
    var all := listed + page;
    forall i, j | 0 <= i < j < |all|
      ensures all[i].key.NewerThan(all[j].key)
    {
      if i < |listed| <= j {
        assert all[j] in page && cursor.value.NewerThan(all[j].key);
        assert all[i] == listed[i];
      } else if |listed| <= i {
        assert all[i] == page[i - |listed|] && all[j] == page[j - |listed|];
      }
    }
  }

  // A record there throughout is on the pages so far, or still ahead.
  lemma AfterPage(found: seq<seq<Record>>, filter: Filter, k: nat, key: Key, cursor: Option<Key>,
      before: seq<Record>, page: seq<Record>, next: Option<Key>)
    requires k < |found| && Throughout(found, filter, key)
    requires Lists(before, key) || cursor.None? || cursor.value.NewerThan(key)
    requires forall r | r in found[k] && Wanted(r, filter, cursor) && r !in page ::
      next.Some? && next.value.NewerThan(r.key)
    ensures Lists(before + page, key) || (next.Some? && next.value.NewerThan(key))
  {
    assert Shows(found[k], filter, key);
    var r :| r in found[k] && r.key == key && filter.Accepts(r);
    if Lists(before, key) {
      var x :| x in before && x.key == key;
      assert x in before + page;
    } else if r in page {
      assert r in before + page;
    }
  }
}
