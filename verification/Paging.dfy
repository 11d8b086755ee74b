/** Keyset paging: one page, a walk over tables that change between its pages, and how many requests a
    walk over a table at rest takes. */
module Paging {
  import opened Types
  import opened Atomic
  import opened Versions

  /** The last key a client has seen. */
  datatype Cursor = Cursor(createdAt: Time, id: int)

  predicate KeyLess(a: Doc, b: Doc) {
    a.createdAt < b.createdAt || (a.createdAt == b.createdAt && a.id < b.id)
  }

  predicate BelowCursor(d: Doc, cur: Option<Cursor>) {
    cur.None? || d.createdAt < cur.value.createdAt
              || (d.createdAt == cur.value.createdAt && d.id < cur.value.id)
  }

  function KeyOfDoc(d: Doc): Cursor { Cursor(d.createdAt, d.id) }

  /** `selected` is the filter of the query: statuses, keyword, field value. */
  predicate Eligible(rows: Rows, selected: Doc -> bool, cur: Option<Cursor>, id: int) {
    id in rows && selected(rows[id]) && BelowCursor(rows[id], cur)
  }

  predicate InPage(page: seq<Doc>, id: int) {
    exists i | 0 <= i < |page| :: page[i].id == id
  }

  predicate Descending(page: seq<Doc>) {
    forall i, j | 0 <= i < j < |page| :: KeyLess(page[j], page[i])
  }

  /** What ORDER BY created_at DESC, id DESC LIMIT returns: the first `limit` eligible rows. */
  ghost predicate IsPage(rows: Rows, selected: Doc -> bool, cur: Option<Cursor>, limit: nat, page: seq<Doc>) {
    && |page| <= limit
    && Descending(page)
    && (forall i | 0 <= i < |page| ::
          Eligible(rows, selected, cur, page[i].id) && rows[page[i].id] == page[i])
    && (forall id | Eligible(rows, selected, cur, id) ::
          InPage(page, id) || (|page| == limit && forall i | 0 <= i < |page| :: KeyLess(rows[id], page[i])))
  }

  /** The greatest row among the remaining ones. */
  method Greatest(todo: set<(int, Doc)>) returns (best: (int, Doc))
    requires todo != {}
    requires forall a, b | a in todo && b in todo && a != b :: KeyLess(a.1, b.1) || KeyLess(b.1, a.1)
    ensures best in todo && forall r | r in todo && r != best :: KeyLess(r.1, best.1)
  {
    best :| best in todo;
    var rest := todo - {best};
    while rest != {}
      invariant rest <= todo && best in todo && best !in rest
      invariant forall r | r in todo && r !in rest && r != best :: KeyLess(r.1, best.1)
    {
      var r :| r in rest;
      rest := rest - {r};
      if KeyLess(best.1, r.1) { best := r; }
    }
  }

  /** Newest first, the higher id first among equals, and all below the cursor. */
  predicate NewestFirst(page: seq<Doc>, cur: Option<Cursor>) {
    && (forall i, j | 0 <= i < j < |page| ::
          page[i].createdAt > page[j].createdAt
          || (page[i].createdAt == page[j].createdAt && page[i].id > page[j].id))
    && (cur.Some? ==> forall i | 0 <= i < |page| ::
          cur.value.createdAt > page[i].createdAt
          || (cur.value.createdAt == page[i].createdAt && cur.value.id > page[i].id))
  }

  lemma PageIsNewestFirst(rows: Rows, selected: Doc -> bool, cur: Option<Cursor>, limit: nat, page: seq<Doc>)
    requires IsPage(rows, selected, cur, limit, page)
    ensures NewestFirst(page, cur)
  {
    forall i | 0 <= i < |page| ensures BelowCursor(page[i], cur) {
      assert Eligible(rows, selected, cur, page[i].id);
    }
  }

  method ListDocs(rows: Rows, selected: Doc -> bool, cur: Option<Cursor>, limit: nat) returns (page: seq<Doc>)
    requires RowIdsOk(rows)
    ensures IsPage(rows, selected, cur, limit, page)
  {
    page := [];
    var todo := set r | r in rows.Items && Eligible(rows, selected, cur, r.0);
    while |page| < limit && todo != {}
      invariant |page| <= limit && todo <= rows.Items
      invariant forall r | r in todo :: Eligible(rows, selected, cur, r.0)
      invariant Descending(page)
      invariant forall i | 0 <= i < |page| ::
                  Eligible(rows, selected, cur, page[i].id) && rows[page[i].id] == page[i]
      invariant forall r, i | r in todo && 0 <= i < |page| :: KeyLess(r.1, page[i])
      invariant forall id | Eligible(rows, selected, cur, id) :: InPage(page, id) || (id, rows[id]) in todo
      decreases |todo|
    {
      var best := Greatest(todo);
      ghost var before := page;
      page := page + [best.1];
      assert forall id | InPage(before, id) :: InPage(page, id) by {
        forall id | InPage(before, id) ensures InPage(page, id) {
          var i :| 0 <= i < |before| && before[i].id == id;
          assert page[i].id == id;
        }
      }
      assert page[|before|].id == best.0;
      todo := todo - {best};
    }
  }

  lemma {:induction false} SameUpTo(rows: Rows, selected: Doc -> bool, cur: Option<Cursor>, limit: nat,
                                    a: seq<Doc>, b: seq<Doc>, k: nat)
    requires RowIdsOk(rows) && k <= |a| && k <= |b|
    requires IsPage(rows, selected, cur, limit, a) && IsPage(rows, selected, cur, limit, b)
    ensures a[..k] == b[..k]
  {
    if k > 0 {
      SameUpTo(rows, selected, cur, limit, a, b, k - 1);
      SameAt(rows, selected, cur, limit, a, b, k - 1);
      assert a[..k] == a[..k - 1] + [a[k - 1]] && b[..k] == b[..k - 1] + [b[k - 1]];
    }
  }

  /** A table, a filter, a cursor and a limit determine the page. */
  lemma PageIsUnique(rows: Rows, selected: Doc -> bool, cur: Option<Cursor>, limit: nat, a: seq<Doc>, b: seq<Doc>)
    requires RowIdsOk(rows)
    requires IsPage(rows, selected, cur, limit, a) && IsPage(rows, selected, cur, limit, b)
    ensures a == b
  {
    var k := if |a| < |b| then |a| else |b|;
    SameUpTo(rows, selected, cur, limit, a, b, k);
    assert a[..|a|] == a && b[..|b|] == b;
    if |b| <= |a| {
      NoLonger(rows, selected, cur, limit, a, b);
    } else {
      NoLonger(rows, selected, cur, limit, b, a);
    }
  }

  lemma SameAt(rows: Rows, selected: Doc -> bool, cur: Option<Cursor>, limit: nat,
               a: seq<Doc>, b: seq<Doc>, k: nat)
    requires RowIdsOk(rows)
    requires IsPage(rows, selected, cur, limit, a) && IsPage(rows, selected, cur, limit, b)
    requires k < |a| && k < |b| && a[..k] == b[..k]
    ensures a[k] == b[k]
  {
    NotBefore(rows, selected, cur, limit, a, b, k);
    NotBefore(rows, selected, cur, limit, b, a, k);
  }

  lemma NotBefore(rows: Rows, selected: Doc -> bool, cur: Option<Cursor>, limit: nat,
                  a: seq<Doc>, b: seq<Doc>, k: nat)
    requires RowIdsOk(rows)
    requires IsPage(rows, selected, cur, limit, a) && IsPage(rows, selected, cur, limit, b)
    requires k < |a| && k < |b| && a[..k] == b[..k]
    ensures a[k] == b[k] || KeyLess(b[k], a[k])
  {
    // b[k] is eligible: it is on page a, or below all of it
    assert Eligible(rows, selected, cur, b[k].id);
    assert forall j | 0 <= j < k :: a[j] == a[..k][j] == b[..k][j] == b[j] && KeyLess(b[k], b[j]);
    if InPage(a, b[k].id) {
      var i :| 0 <= i < |a| && a[i].id == b[k].id;
      assert a[i] == b[k];
    }
  }

  lemma NoLonger(rows: Rows, selected: Doc -> bool, cur: Option<Cursor>, limit: nat, a: seq<Doc>, b: seq<Doc>)
    requires RowIdsOk(rows)
    requires IsPage(rows, selected, cur, limit, a) && IsPage(rows, selected, cur, limit, b)
    requires |b| <= |a| && a[..|b|] == b
    ensures |a| == |b|
  {
    assert forall i | 0 <= i < |b| :: b[i] == a[..|b|][i] == a[i];
    assert |b| < |a| ==> Eligible(rows, selected, cur, a[|b|].id);
    assert |b| < |a| ==> !InPage(b, a[|b|].id);
  }

  // ---------- a walk ----------

  /** A full page gives a cursor for the next one, a shorter page ends the walk. */
  function NextCursor(page: seq<Doc>, size: nat): (next: Option<Cursor>)
    ensures next.None? <==> page == [] || |page| != size
  {
    if |page| == size && page != [] then Some(KeyOfDoc(page[|page| - 1])) else None
  }

  /** Page `i` shows the table as it is at that request and starts from the cursor of page `i - 1`. */
  ghost predicate IsWalk(tables: seq<Rows>, selected: Doc -> bool, size: nat, pages: seq<seq<Doc>>) {
    && size > 0 && |tables| == |pages| && |pages| > 0
    && (forall i | 0 <= i < |pages| - 1 :: |pages[i]| == size)
    && IsPage(tables[0], selected, None, size, pages[0])
    && (forall i | 0 < i < |pages| ::
          IsPage(tables[i], selected, NextCursor(pages[i - 1], size), size, pages[i]))
  }

  /** Nothing was imported in between: a row that is there stays there with its key. */
  ghost predicate Stable(tables: seq<Rows>) {
    && (forall i | 0 <= i < |tables| :: RowIdsOk(tables[i]))
    && (forall i, j, id | 0 <= i <= j < |tables| && id in tables[i] ::
          id in tables[j] && tables[j][id].createdAt == tables[i][id].createdAt)
  }

  /** The keys a walk returns strictly decrease from page to page, whatever happens to the table. */
  lemma {:induction false} WalkDescends(tables: seq<Rows>, selected: Doc -> bool, size: nat, pages: seq<seq<Doc>>,
                                        i: nat, a: nat, j: nat, b: nat)
    requires IsWalk(tables, selected, size, pages)
    requires i < j < |pages| && a < |pages[i]| && b < |pages[j]|
    ensures KeyLess(pages[j][b], pages[i][a])
    decreases j
  {
    var prev := pages[j - 1];
    var last := prev[|prev| - 1];
    assert IsPage(tables[j], selected, Some(KeyOfDoc(last)), size, pages[j]);
    assert KeyLess(pages[j][b], last);
    if i < j - 1 {
      WalkDescends(tables, selected, size, pages, i, a, j - 1, |prev| - 1);
    } else {
      assert Descending(prev) by {
        if i == 0 { assert IsPage(tables[0], selected, None, size, pages[0]); }
        else { assert IsPage(tables[i], selected, NextCursor(pages[i - 1], size), size, pages[i]); }
      }
      assert a == |prev| - 1 || KeyLess(last, prev[a]);
    }
  }

  /** No row is returned twice. */
  lemma WalkNeverRepeats(tables: seq<Rows>, selected: Doc -> bool, size: nat, pages: seq<seq<Doc>>,
                         i: nat, a: nat, j: nat, b: nat)
    requires IsWalk(tables, selected, size, pages) && Stable(tables)
    requires i < |pages| && j < |pages| && a < |pages[i]| && b < |pages[j]|
    requires pages[i][a].id == pages[j][b].id
    ensures i == j && a == b
  {
    PageRows(tables, selected, size, pages, i);
    PageRows(tables, selected, size, pages, j);
    var id := pages[i][a].id;
    assert pages[i][a] == tables[i][id] && pages[j][b] == tables[j][id];
    if i < j {
      assert tables[j][id].createdAt == tables[i][id].createdAt;
      WalkDescends(tables, selected, size, pages, i, a, j, b);
    } else if j < i {
      assert tables[i][id].createdAt == tables[j][id].createdAt;
      WalkDescends(tables, selected, size, pages, j, b, i, a);
    } else {
      DistinctInPage(tables[i], pages[i], a, b);
    }
  }

  lemma DistinctInPage(rows: Rows, page: seq<Doc>, a: nat, b: nat)
    requires Descending(page) && a < |page| && b < |page| && page[a].id == page[b].id
    requires forall k | 0 <= k < |page| :: page[k].id in rows && rows[page[k].id] == page[k]
    ensures a == b
  {
  }

  lemma PageRows(tables: seq<Rows>, selected: Doc -> bool, size: nat, pages: seq<seq<Doc>>, i: nat)
    requires IsWalk(tables, selected, size, pages) && i < |pages|
    ensures Descending(pages[i])
    ensures forall a | 0 <= a < |pages[i]| ::
              pages[i][a].id in tables[i] && tables[i][pages[i][a].id] == pages[i][a] && selected(pages[i][a])
  {
    var cur := if i == 0 then None else NextCursor(pages[i - 1], size);
    assert IsPage(tables[i], selected, cur, size, pages[i]);
    forall a | 0 <= a < |pages[i]| ensures selected(pages[i][a]) {
      assert Eligible(tables[i], selected, cur, pages[i][a].id);
    }
  }

  /** The row is on one of the first `i + 1` pages. */
  ghost predicate ReturnedBy(pages: seq<seq<Doc>>, i: int, id: int)
    requires i < |pages|
  {
    exists k | 0 <= k <= i :: InPage(pages[k], id)
  }

  lemma {:induction false} WalkReachesOrPassesAbove(tables: seq<Rows>, selected: Doc -> bool, size: nat,
                                                    pages: seq<seq<Doc>>, id: int, i: nat)
    requires IsWalk(tables, selected, size, pages) && Stable(tables) && i < |pages|
    requires forall k | 0 <= k < |tables| :: id in tables[k] && selected(tables[k][id])
    ensures ReturnedBy(pages, i, id)
            || (|pages[i]| == size && forall a | 0 <= a < size :: KeyLess(tables[i][id], pages[i][a]))
  {
    var cur := if i == 0 then None else NextCursor(pages[i - 1], size);
    assert IsPage(tables[i], selected, cur, size, pages[i]);
    if i > 0 {
      WalkReachesOrPassesAbove(tables, selected, size, pages, id, i - 1);
      if ReturnedBy(pages, i - 1, id) { return; }
      assert KeyLess(tables[i - 1][id], pages[i - 1][size - 1]);
      assert tables[i][id].createdAt == tables[i - 1][id].createdAt;
    }
    assert Eligible(tables[i], selected, cur, id);
    if InPage(pages[i], id) { assert ReturnedBy(pages, i, id); }
  }

  /** Row `id` is entry `a` of page `i`. */
  predicate At(pages: seq<seq<Doc>>, i: int, a: int, id: int) {
    0 <= i < |pages| && 0 <= a < |pages[i]| && pages[i][a].id == id
  }

  /** A walk that has come to its end has returned, exactly once, every row that matched the filter at
      each of its requests. */
  lemma WalkIsComplete(tables: seq<Rows>, selected: Doc -> bool, size: nat, pages: seq<seq<Doc>>, id: int)
    requires IsWalk(tables, selected, size, pages) && Stable(tables)
    requires |pages[|pages| - 1]| < size
    requires forall k | 0 <= k < |tables| :: id in tables[k] && selected(tables[k][id])
    ensures exists i, a :: At(pages, i, a, id)
    ensures forall i, a, j, b | At(pages, i, a, id) && At(pages, j, b, id) :: i == j && a == b
  {
    WalkReachesOrPassesAbove(tables, selected, size, pages, id, |pages| - 1);
    var k :| 0 <= k < |pages| && InPage(pages[k], id);
    var a :| 0 <= a < |pages[k]| && pages[k][a].id == id;
    assert At(pages, k, a, id);
    forall i, a, j, b | At(pages, i, a, id) && At(pages, j, b, id) ensures i == j && a == b {
      WalkNeverRepeats(tables, selected, size, pages, i, a, j, b);
    }
  }

  // ---------- tables of one history ----------

  /** The tables at successive requests are those after ever longer prefixes of one committed history. */
  ghost predicate AlongHistory(rows0: Rows, log: seq<Op>, at: seq<nat>, tables: seq<Rows>) {
    && |at| == |tables|
    && (forall i | 0 <= i < |at| :: at[i] <= |log| && Replay(rows0, log[..at[i]]) == Some(tables[i]))
    && (forall i, j | 0 <= i <= j < |at| :: at[i] <= at[j])
  }

  /** Inserts, updates, deletes and restores between the pages are what `Stable` allows. */
  lemma HistoryIsStable(rows0: Rows, log: seq<Op>, at: seq<nat>, tables: seq<Rows>)
    requires RowIdsOk(rows0) && NoImport(log) && AlongHistory(rows0, log, at, tables)
    ensures Stable(tables)
  {
    forall i | 0 <= i < |tables| ensures RowIdsOk(tables[i]) {
      ReplayKeepsRowIds(rows0, log[..at[i]]);
    }
    forall i, j, id | 0 <= i <= j < |tables| && id in tables[i]
      ensures id in tables[j] && tables[j][id].createdAt == tables[i][id].createdAt
    {
      assert log[..at[j]] == log[..at[i]] + log[at[i]..at[j]];
      ReplaySplit(rows0, log[..at[i]], log[at[i]..at[j]]);
      RowIsFoldOfChanges(tables[i], log[at[i]..at[j]], id);
    }
  }

  // ---------- request parameters and page count ----------

  /** The cursor parameters come together and each must parse; without them the walk starts from the top. */
  method ParseCursor(createdAt: Option<string>, id: Option<string>,
                     parseTime: string -> Option<Time>, parseId: string -> Option<int>)
    returns (ok: bool, cur: Option<Cursor>)
    ensures ok <==> match (createdAt, id)
                    case (Some(t), Some(i)) => parseTime(t).Some? && parseId(i).Some?
                    case (None, None) => true
                    case _ => false
    ensures cur.Some? <==> ok && createdAt.Some?
    ensures cur.Some? ==> Some(cur.value.createdAt) == parseTime(createdAt.value)
    ensures cur.Some? ==> Some(cur.value.id) == parseId(id.value)
  {
    if createdAt.Some? != id.Some? { return false, None; }
    if createdAt.None? { return true, None; }
    var t := parseTime(createdAt.value);
    if t.None? { return false, None; }
    var i := parseId(id.value);
    if i.None? { return false, None; }
    return true, Some(Cursor(t.value, i.value));
  }

  /** The handler's clamp: 0 (also an absent parameter) means the default. */
  method HandlerPageSize(requested: int, defaultSize: int, maxSize: int) returns (size: int)
    requires 0 < defaultSize <= maxSize
    ensures 1 <= size <= maxSize
    ensures size == if requested == 0 then defaultSize
                    else if requested < 1 then 1 else if requested > maxSize then maxSize else requested
  {
    size := requested;
    if size == 0 { size := defaultSize; }
    if size < 1 { size := 1; }
    if size > maxSize { size := maxSize; }
  }

  /** The service's clamp leaves every size the handler lets through as it is. */
  method ServicePageSize(requested: int, defaultSize: int, maxSize: int) returns (size: int)
    requires 0 < defaultSize <= maxSize
    ensures 1 <= size <= maxSize
    ensures 1 <= requested <= maxSize ==> size == requested
  {
    size := requested;
    if size < 1 { size := defaultSize; }
    if size > maxSize { size := maxSize; }
  }

  ghost function EligibleIds(rows: Rows, selected: Doc -> bool, cur: Option<Cursor>): set<int> {
    set id | id in rows && Eligible(rows, selected, cur, id)
  }

  function IdsOf(page: seq<Doc>): set<int> { set i | 0 <= i < |page| :: page[i].id }

  lemma {:induction false} PageIds(rows: Rows, page: seq<Doc>)
    requires Descending(page) && forall i | 0 <= i < |page| :: page[i].id in rows && rows[page[i].id] == page[i]
    ensures |IdsOf(page)| == |page|
  {
    if page != [] {
      var n := |page| - 1;
      PageIds(rows, page[..n]);
      assert IdsOf(page) == IdsOf(page[..n]) + {page[n].id};
    }
  }

  /** A page takes its rows off what is left. */
  lemma PageTakesItsRows(rows: Rows, selected: Doc -> bool, cur: Option<Cursor>, size: nat, page: seq<Doc>)
    requires RowIdsOk(rows) && size > 0 && IsPage(rows, selected, cur, size, page)
    ensures |page| < size ==> |EligibleIds(rows, selected, cur)| == |page|
    ensures |page| == size ==>
              |EligibleIds(rows, selected, cur)| == size + |EligibleIds(rows, selected, NextCursor(page, size))|
  {
    PageIds(rows, page);
    var all := EligibleIds(rows, selected, cur);
    forall id | id in IdsOf(page) ensures id in all {
      var i :| 0 <= i < |page| && page[i].id == id;
      assert Eligible(rows, selected, cur, page[i].id);
    }
    if |page| < size {
      assert all == IdsOf(page);
    } else {
      var left := EligibleIds(rows, selected, NextCursor(page, size));
      LeftIsBelowLast(rows, selected, cur, size, page);
      assert all == IdsOf(page) + left;
    }
  }

  lemma LeftIsBelowLast(rows: Rows, selected: Doc -> bool, cur: Option<Cursor>, size: nat, page: seq<Doc>)
    requires RowIdsOk(rows) && size > 0 && IsPage(rows, selected, cur, size, page) && |page| == size
    ensures var left := EligibleIds(rows, selected, NextCursor(page, size));
            left !! IdsOf(page) && left <= EligibleIds(rows, selected, cur)
            && EligibleIds(rows, selected, cur) <= left + IdsOf(page)
  {
    var last := page[size - 1];
    assert Eligible(rows, selected, cur, last.id);
    forall id | id in EligibleIds(rows, selected, NextCursor(page, size))
      ensures id !in IdsOf(page) && Eligible(rows, selected, cur, id)
    {
      assert KeyLess(rows[id], last);
      assert forall i | 0 <= i < size :: i == size - 1 || KeyLess(last, page[i]);
    }
    forall id | id in EligibleIds(rows, selected, cur) && id !in IdsOf(page)
      ensures Eligible(rows, selected, NextCursor(page, size), id)
    {
      assert !InPage(page, id);
      assert KeyLess(rows[id], page[size - 1]);
    }
  }

  function StartOf(pages: seq<seq<Doc>>, size: nat, i: nat): Option<Cursor>
    requires i < |pages|
  {
    if i == 0 then None else NextCursor(pages[i - 1], size)
  }

  lemma {:induction false} LeftAtPage(rows: Rows, tables: seq<Rows>, selected: Doc -> bool, size: nat,
                                      pages: seq<seq<Doc>>, i: nat)
    requires IsWalk(tables, selected, size, pages) && RowIdsOk(rows) && i < |pages|
    requires forall k | 0 <= k < |tables| :: tables[k] == rows
    ensures |EligibleIds(rows, selected, None)| == i * size + |EligibleIds(rows, selected, StartOf(pages, size, i))|
  {
    if i > 0 {
      LeftAtPage(rows, tables, selected, size, pages, i - 1);
      assert IsPage(tables[i - 1], selected, StartOf(pages, size, i - 1), size, pages[i - 1]);
      PageTakesItsRows(rows, selected, StartOf(pages, size, i - 1), size, pages[i - 1]);
      assert i * size == (i - 1) * size + size;
    }
  }

  lemma AtLeastOnce(x: int, size: nat)
    requires x >= 1
    ensures x * size >= size
  {
    assert (x - 1) * size >= 0;
  }

  lemma QuotientIs(total: nat, size: nat, q: nat, r: nat)
    requires size > 0 && total == q * size + r && r < size
    ensures total / size == q
  {
    var d := total / size;
    assert (q - d) * size == total % size - r;
    if q - d >= 1 { AtLeastOnce(q - d, size); }
    if d - q >= 1 { AtLeastOnce(d - q, size); }
  }

  /** On a table at rest with N matching rows no walk makes more than floor(N / size) + 1 requests, and it
      has come to its end exactly when it has made them all. */
  lemma PageCount(rows: Rows, tables: seq<Rows>, selected: Doc -> bool, size: nat, pages: seq<seq<Doc>>)
    requires IsWalk(tables, selected, size, pages) && RowIdsOk(rows)
    requires forall k | 0 <= k < |tables| :: tables[k] == rows
    ensures var requests := |set id | id in rows && selected(rows[id])| / size + 1;
            && |pages| <= requests
            && (|pages[|pages| - 1]| < size <==> |pages| == requests)
  {
    var m := |pages| - 1;
    LeftAtPage(rows, tables, selected, size, pages, m);
    assert IsPage(tables[m], selected, StartOf(pages, size, m), size, pages[m]);
    PageTakesItsRows(rows, selected, StartOf(pages, size, m), size, pages[m]);
    assert EligibleIds(rows, selected, None) == set id | id in rows && selected(rows[id]);
    var n, left := |EligibleIds(rows, selected, None)|, |EligibleIds(rows, selected, StartOf(pages, size, m))|;
    assert n == m * size + left && (|pages[m]| < size <==> left < size);
    if left < size { QuotientIs(n, size, m, left); } else { QuotientExceeds(n, size, m); }
  }

  lemma QuotientExceeds(total: nat, size: nat, q: nat)
    requires size > 0 && total >= q * size + size
    ensures total / size > q
  {
    ScaleKeepsOrder(total / size, q, size);
    assert total == (total / size) * size + total % size;
  }

  lemma ScaleKeepsOrder(x: nat, y: nat, size: nat)
    ensures x <= y ==> x * size <= y * size
  {
    assert y * size - x * size == (y - x) * size;
  }
}
