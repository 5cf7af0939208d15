/** Keyset pagination of internal/clickhouse/store.go over a fixed table that may hold the
    same event several times.  The filter clauses other than the cursor are one predicate. */
module Pagination {
  import opened ByteStrings

  /** The place of an event in the listing: newest first, then by descending id. */
  datatype Key = Key(time: int, id: int)

  datatype Row = Row(key: Key, tenant: string, payload: string)

  type Filter = Row -> bool

  /** `a` is listed before `b`. */
  predicate Before(a: Key, b: Key) {
    a.time > b.time || (a.time == b.time && a.id > b.id)
  }

  /** Newest first, and among events of one time the greater id first. */
  predicate NewerFirst(a: Row, b: Row) {
    if a.key.time == b.key.time then a.key.id > b.key.id else a.key.time > b.key.time
  }

  ghost predicate Listed(rows: seq<Row>) {
    forall i, j :: 0 <= i < j < |rows| ==> Before(rows[i].key, rows[j].key)
  }

  /** The event id decides the tenant, so one place in the listing is one event. */
  ghost predicate IdsDecideTenant(store: seq<Row>) {
    forall a, b :: a in store && b in store && a.key.id == b.key.id ==> a.tenant == b.tenant
  }

  predicate Past(cursor: Option<Key>, k: Key) {
    cursor.None? || Before(cursor.value, k)
  }

  /** Groups of `LIMIT 1 BY tenant_id, event_time, event_id` that the query may return. */
  function Groups(store: seq<Row>, filter: Filter, cursor: Option<Key>): set<(string, Key)> {
    set r | r in store && filter(r) && Past(cursor, r.key) :: (r.tenant, r.key)
  }

  function Keys(store: seq<Row>, filter: Filter): set<Key> {
    set r | r in store && filter(r) :: r.key
  }

  function KeysOf(rows: seq<Row>): set<Key> {
    set r | r in rows :: r.key
  }

  /** `limit` of a request: 0 means 50, and only 1 to 200 is accepted. */
  function EffectiveLimit(limit: int): Option<nat> {
    var l := if limit == 0 then 50 else limit;
    if 1 <= l <= 200 then Some(l) else None
  }

  /** The group that comes first in the listing. */
  method FirstGroup(groups: set<(string, Key)>) returns (first: (string, Key))
    requires groups != {}
    ensures first in groups && forall g <- groups :: g.1 == first.1 || Before(first.1, g.1)
  {
    first :| first in groups;
    var rest := groups - {first};
    while rest != {}
      invariant first in groups && rest <= groups
      invariant forall g <- groups :: g in rest || g.1 == first.1 || Before(first.1, g.1)
    {
      var g :| g in rest;
      if Before(g.1, first.1) {
        first := g;
      }
      rest := rest - {g};
    }
  }

  /** The query: one row of each group, in listing order, at most `most` of them. */
  method Query(store: seq<Row>, filter: Filter, cursor: Option<Key>, most: nat) returns (rows: seq<Row>)
    requires IdsDecideTenant(store)
    ensures |rows| <= most && Listed(rows)
    ensures forall r <- rows :: r in store && filter(r) && Past(cursor, r.key)
    ensures forall k <- Keys(store, filter) :: Past(cursor, k) ==>
      k in KeysOf(rows) || (|rows| == most && forall r <- rows :: Before(r.key, k))
  {
    rows := [];
    var open := Groups(store, filter, cursor);
    while |rows| < most && open != {}
      invariant |rows| <= most && Listed(rows)
      invariant open <= Groups(store, filter, cursor)
      invariant forall r <- rows :: r in store && filter(r) && Past(cursor, r.key)
      invariant forall r, g :: r in rows && g in open ==> Before(r.key, g.1)
      invariant forall g <- Groups(store, filter, cursor) :: g in open || g.1 in KeysOf(rows)
    {
      var g := FirstGroup(open);
      var row :| row in store && filter(row) && Past(cursor, row.key) && (row.tenant, row.key) == g;
      forall h | h in open && h != g
        ensures Before(row.key, h.1)
      {
        OneTenant(store, filter, cursor, g, h);
      }
      assert forall k <- KeysOf(rows) :: k in KeysOf(rows + [row]);
      assert (rows + [row])[|rows|] == row;
      rows, open := rows + [row], open - {g};
    }
    forall k | k in Keys(store, filter) && Past(cursor, k) && k !in KeysOf(rows)
      ensures |rows| == most && forall r <- rows :: Before(r.key, k)
    {
      var r :| r in store && filter(r) && r.key == k;
      assert (r.tenant, r.key) in Groups(store, filter, cursor);
      assert (r.tenant, r.key) in open;
    }
  }

  lemma {:induction false} OneTenant(store: seq<Row>, filter: Filter, cursor: Option<Key>, g: (string, Key),
                                     h: (string, Key))
    requires IdsDecideTenant(store)
    requires g in Groups(store, filter, cursor) && h in Groups(store, filter, cursor) && g != h
    ensures g.1 != h.1
  {
  }

  datatype Page = Page(events: seq<Row>, next: Option<Key>)

  /** The page after `cursor`: in order, and exactly the matching keys up to the next cursor. */
  ghost predicate PageOf(page: Page, store: seq<Row>, filter: Filter, cursor: Option<Key>, limit: nat) {
    && |page.events| <= limit && Listed(page.events) && (page.next.Some? ==> |page.events| == limit)
    && (forall r <- page.events :: r in store && filter(r) && Past(cursor, r.key))
    && (page.next.Some? ==> page.events != [] && page.next.value == page.events[|page.events| - 1].key)
    && (forall k <- Keys(store, filter) :: Past(cursor, k) ==>
          (k in KeysOf(page.events) <==> !(page.next.Some? && Before(page.next.value, k))))
  }

  /** A request with a bad limit is refused; any other gets its page, of 50 events if it does not
      say how many. */
  method ListEvents(store: seq<Row>, filter: Filter, cursor: Option<Key>, limit: int) returns (page: Option<Page>)
    requires IdsDecideTenant(store)
    ensures page.Some? <==> 0 <= limit <= 200
    ensures page.Some? ==> PageOf(page.value, store, filter, cursor, if limit == 0 then 50 else limit)
  {
    var effective := EffectiveLimit(limit);
    if effective.None? {
      return None;
    }
    var fetched := FetchPage(store, filter, cursor, effective.value);
    page := Some(fetched);
  }

  /** One page: ask for one row more than the page holds to learn whether there is another. */
  method FetchPage(store: seq<Row>, filter: Filter, cursor: Option<Key>, limit: nat) returns (page: Page)
    requires IdsDecideTenant(store) && limit >= 1
    ensures PageOf(page, store, filter, cursor, limit)
  {
    var rows := Query(store, filter, cursor, limit + 1);
    if |rows| <= limit {
      return Page(rows, None);
    }
    var events := rows[..limit];
    FullPage(rows, store, filter, cursor, limit);
    page := Page(events, Some(events[limit - 1].key));
  }

  lemma {:induction false} FullPage(rows: seq<Row>, store: seq<Row>, filter: Filter, cursor: Option<Key>, limit: nat)
    requires Listed(rows) && |rows| == limit + 1 && limit >= 1
    requires forall r <- rows :: r in store && filter(r) && Past(cursor, r.key)
    requires forall k <- Keys(store, filter) :: Past(cursor, k) ==>
               k in KeysOf(rows) || forall r <- rows :: Before(r.key, k)
    ensures PageOf(Page(rows[..limit], Some(rows[limit - 1].key)), store, filter, cursor, limit)
  {
    PageSplit(rows, limit);
    assert forall r <- rows[..limit] :: r in rows;
    forall k | k in Keys(store, filter) && Past(cursor, k)
      ensures k in KeysOf(rows[..limit]) <==> !Before(rows[limit - 1].key, k)
    {
      KeyOnPage(rows, limit, k);
    }
  }

  /** A key that is listed, or comes after everything listed, is on the page exactly when it does
      not come after the last row of the page. */
  lemma {:induction false} KeyOnPage(rows: seq<Row>, limit: nat, k: Key)
    requires Listed(rows) && |rows| == limit + 1 && limit >= 1
    requires k in KeysOf(rows) || forall r <- rows :: Before(r.key, k)
    ensures k in KeysOf(rows[..limit]) <==> !Before(rows[limit - 1].key, k)
  {
    PageSplit(rows, limit);
    assert forall r <- rows[..limit] :: r in rows;
    assert rows[limit - 1] in rows && rows[limit] in rows;
  }

  /** In a listing one longer than the page, the rest comes after the last row of the page. */
  lemma {:induction false} PageSplit(rows: seq<Row>, limit: nat)
    requires Listed(rows) && |rows| == limit + 1 && limit >= 1
    ensures Listed(rows[..limit])
    ensures KeysOf(rows) == KeysOf(rows[..limit]) + {rows[limit].key}
    ensures Before(rows[limit - 1].key, rows[limit].key)
    ensures forall k <- KeysOf(rows[..limit]) :: k == rows[limit - 1].key || Before(k, rows[limit - 1].key)
  {
    assert rows == rows[..limit] + [rows[limit]];
    assert forall r <- rows :: r in rows[..limit] || r == rows[limit];
  }

  /** Following the cursors from the first page to the last one lists every matching event
      exactly once, in order, and comes to an end. */
  method FollowAll(store: seq<Row>, filter: Filter, limit: int) returns (ok: bool, all: seq<Row>)
    requires IdsDecideTenant(store)
    ensures ok <==> 0 <= limit <= 200
    ensures ok ==> KeysOf(all) == Keys(store, filter) && forall r <- all :: r in store && filter(r)
    ensures ok ==> forall i, j :: 0 <= i < j < |all| ==> NewerFirst(all[i], all[j])
  {
    ok, all := EffectiveLimit(limit).Some?, [];
    if !ok {
      return;
    }
    var cursor: Option<Key> := None;
    var more := true;
    while more
      invariant Listed(all) && forall r <- all :: r in store && filter(r)
      invariant more ==> forall k <- Keys(store, filter) :: (k in KeysOf(all) <==> !Past(cursor, k))
      invariant more ==> forall r <- all :: !Past(cursor, r.key)
      invariant !more ==> forall k <- Keys(store, filter) :: k in KeysOf(all)
      decreases more, Keys(store, filter) - KeysOf(all)
    {
      var listed := ListEvents(store, filter, cursor, limit);
      var page := listed.value;
      AppendPage(all, page.events, cursor);
      ghost var before := all;
      all := all + page.events;
      assert KeysOf(all) == KeysOf(before) + KeysOf(page.events);
      more := page.next.Some?;
      if more {
        var last := page.events[|page.events| - 1];
        assert last in page.events && last.key in Keys(store, filter) && last.key !in KeysOf(before);
        cursor := page.next;
      }
    }
    assert KeysOf(all) <= Keys(store, filter);
  }

  lemma {:induction false} AppendPage(all: seq<Row>, events: seq<Row>, cursor: Option<Key>)
    requires Listed(all) && Listed(events)
    requires forall r <- all :: !Past(cursor, r.key)
    requires forall r <- events :: Past(cursor, r.key)
    ensures Listed(all + events)
  {
    assert forall i :: 0 <= i < |all| ==> all[i] in all;
    assert forall i :: 0 <= i < |events| ==> events[i] in events;
  }
}
