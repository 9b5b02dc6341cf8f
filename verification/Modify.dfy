/** DELETE and UPDATE over a scan of the table they change. */
module Modify {
  import opened Config
  import opened Bytes
  import opened PageLayout
  import opened PageHistory
  import opened HeapChain
  import opened TableHeap
  import opened RowLists
  import opened Executors

  ghost function Rids(rows: seq<Row>): set<RecordId> {
    set i | 0 <= i < |rows| :: rows[i].rid
  }

  /** Rids of those among the first `n` rows for which `served` holds. */
  ghost function Taken(rows: seq<Row>, n: nat, served: nat -> bool): set<RecordId>
    requires n <= |rows|
  {
    set i: nat | i < n && served(i) :: rows[i].rid
  }

  lemma RidsConcat(a: seq<Row>, b: seq<Row>)
    ensures Rids(a + b) == Rids(a) + Rids(b)
  {
    forall r | r in Rids(b)
      ensures r in Rids(a + b)
    {
      var j :| 0 <= j < |b| && b[j].rid == r;
      assert (a + b)[|a| + j].rid == r;
    }
    forall r | r in Rids(a)
      ensures r in Rids(a + b)
    {
      var j :| 0 <= j < |a| && a[j].rid == r;
      assert (a + b)[j].rid == r;
    }
  }

  /** In a list with ordered rids, those from `i` on are not among the first `i`. */
  lemma RidsApart(rows: seq<Row>, i: nat)
    requires Ordered(rows) && i < |rows|
    ensures rows[i].rid !in Rids(rows[..i])
    ensures Rids(rows[..i + 1]) == Rids(rows[..i]) + {rows[i].rid}
  {
    assert rows[..i + 1] == rows[..i] + [rows[i]];
    RidsConcat(rows[..i], [rows[i]]);
  }

  lemma RidsEmpty(rows: seq<Row>)
    requires rows == []
    ensures Rids(rows) == {}
  {
  }

  lemma RidsHold(rows: seq<Row>, i: nat)
    requires i < |rows|
    ensures rows[i].rid in Rids(rows)
  {
  }

  lemma TakenStep(rows: seq<Row>, n: nat, served: nat -> bool)
    requires Ordered(rows) && n < |rows|
    ensures rows[n].rid !in Taken(rows, n, served)
    ensures Taken(rows, n + 1, served) == Taken(rows, n, served) + if served(n) then {rows[n].rid} else {}
  {
    var next := Taken(rows, n + 1, served);
    forall i: nat | i < n && served(i)
      ensures rows[i].rid in next && rows[i].rid != rows[n].rid
    {
      assert Before(rows[i].rid, rows[n].rid);
    }
    if served(n) {
      assert rows[n].rid in next;
    }
  }

  lemma TakenNone(rows: seq<Row>, served: nat -> bool)
    ensures Taken(rows, 0, served) == {}
  {
  }

  lemma TakenAll(rows: seq<Row>, served: nat -> bool)
    requires forall i: nat :: i < |rows| ==> served(i)
    ensures Taken(rows, |rows|, served) == Rids(rows)
  {
    var taken := Taken(rows, |rows|, served);
    forall i: nat | i < |rows|
      ensures rows[i].rid in taken
    {
      assert served(i);
    }
  }

  /** As many rids are taken as rows exactly if all rows are served. */
  lemma {:induction false} TakenCount(rows: seq<Row>, n: nat, served: nat -> bool)
    requires Ordered(rows) && n <= |rows|
    ensures |Taken(rows, n, served)| <= n
    ensures |Taken(rows, n, served)| == n <==> forall i: nat :: i < n ==> served(i)
  {
    hide Ordered, Taken;
    if n == 0 {
      TakenNone(rows, served);
    } else {
      TakenCount(rows, n - 1, served);
      TakenStep(rows, n - 1, served);
      var front := Taken(rows, n - 1, served);
      if served(n - 1) {
        assert |front + {rows[n - 1].rid}| == |front| + 1;
      } else {
        assert front + {} == front;
      }
    }
  }

  lemma {:induction false} OrderedCount(rows: seq<Row>)
    requires Ordered(rows)
    ensures |Rids(rows)| == |rows|
  {
    if rows == [] {
      RidsEmpty(rows);
    } else {
      var front := rows[..|rows| - 1];
      OrderedCount(front);
      RidsApart(rows, |rows| - 1);
      assert rows[..|rows|] == rows;
    }
  }

  // ---------------------------------------------------------------- delete

  lemma MinusMore<K, V>(m: map<K, V>, gone: set<K>, k: K)
    ensures (m - gone) - {k} == m - (gone + {k})
    ensures m - (gone + {}) == m - gone
  {
    assert gone + {} == gone;
  }

  /** Deletes one record that the running scan has already left behind, if the pool
      has a frame for its page: the scan and every buffer above it are unaffected. */
  method DeleteBehind(heap: TableHeap, e: Executor, rid: RecordId, fetchOk: bool)
    requires e.Valid() && e.leaf.heap == heap
    requires rid in Table(heap.pages) && Before(rid, e.leaf.current)
    modifies heap
    ensures e.Valid() && e.Pending() == old(e.Pending())
    ensures Table(heap.pages) == if fetchOk then old(Table(heap.pages)) - {rid} else old(Table(heap.pages))
  {
    hide Executor.Through, Executor.Passed, Executor.Shaped, Chained, RowsFrom, Table;
    e.Apart();
    ghost var pages := heap.pages;
    var _ := heap.MarkDelete(rid, fetchOk);
    ghost var leaf := e.leaf;
    if leaf.current.pageId != INVALID_PAGE_ID {
      RowsFromFrame(pages, heap.chain, heap.pages, leaf.at, leaf.current.slotNum + 1);
    }
  }

  /** Deletes the rows just pulled, which are rows `from` on of all that were
      pending, while the scan above stays where it is. */
  method DeleteBatch(heap: TableHeap, e: Executor, rows: seq<Row>, served: nat -> bool, from: nat,
                     ghost table: map<RecordId, seq<byte>>, ghost pending: seq<Row>)
    requires e.Valid() && e.leaf.heap == heap
    requires forall j :: 0 <= j < |rows| ==> Before(rows[j].rid, e.leaf.current)
    requires Ordered(pending) && Rids(pending) <= table.Keys
    requires from + |rows| <= |pending| && pending[from..from + |rows|] == rows
    requires Table(heap.pages) == table - Taken(pending, from, served)
    modifies heap
    ensures e.Valid() && e.Pending() == old(e.Pending())
    ensures Table(heap.pages) == table - Taken(pending, from + |rows|, served)
  {
    hide Executor.Valid, Executor.Pending, TableHeap.Valid, Table, Rids, Taken, Ordered, Before;
    for i := 0 to |rows|
      invariant e.Valid() && e.Pending() == old(e.Pending())
      invariant e.leaf.current == old(e.leaf.current)
      invariant Table(heap.pages) == table - Taken(pending, from + i, served)
    {
      var rid := rows[i].rid;
      TakenStep(pending, from + i, served);
      assert rows[i] == pending[from + i];
      RidsHold(pending, from + i);
      DeleteBehind(heap, e, rid, served(from + i));
      MinusMore(table, Taken(pending, from + i, served), rid);
    }
  }

  lemma FrontRows(pending: seq<Row>, from: nat, rows: seq<Row>, rest: seq<Row>)
    requires from <= |pending| && pending[from..] == rows + rest
    ensures from + |rows| <= |pending|
    ensures pending[from..from + |rows|] == rows && pending[from + |rows|..] == rest
  {
    assert pending[from..from + |rows|] == pending[from..][..|rows|];
    assert pending[from + |rows|..] == pending[from..][|rows|..];
  }

  /** One round of the deletion's loop: pulls a batch and deletes its rows. */
  method DeleteRound(heap: TableHeap, e: Executor, n: nat, served: nat -> bool, from: nat,
                     ghost table: map<RecordId, seq<byte>>, ghost pending: seq<Row>) returns (more: bool, next: nat)
    requires e.Valid() && e.leaf.heap == heap && n >= 1
    requires Ordered(pending) && Rids(pending) <= table.Keys
    requires from <= |pending| && e.Pending() == pending[from..]
    requires Table(heap.pages) == table - Taken(pending, from, served)
    modifies heap, e.repr
    ensures e.Valid() && heap !in e.repr && heap.Valid()
    ensures from <= next <= |pending| && e.Pending() == pending[next..]
    ensures Table(heap.pages) == table - Taken(pending, next, served)
    ensures if more then next > from else next == |pending|
  {
    hide Executor.Valid, Executor.Pending, Executor.Batched, Executor.Shaped, Executor.Through, Executor.Passed;
    hide TableIterator.Valid, TableIterator.Funded, TableHeap.Valid, Table, Rids, Taken, Ordered, Before;
    e.Apart();
    var rows;
    more, rows := e.Next(n);
    e.Apart();
    next := from + |rows|;
    FrontRows(pending, from, rows, e.Pending());
    if more {
      DeleteBatch(heap, e, rows, served, from, table, pending);
      e.Apart();
    }
  }

  /** `DeleteExecutor::next`: marks rows deleted batch by batch while the child
      goes on scanning. Of the rows the child would have yielded on the unchanged
      table it removes exactly those for whose page the pool has a frame
      (`served(k)` for the `k`-th), but it counts them all. */
  method Delete(heap: TableHeap, e: Executor, n: nat, served: nat -> bool) returns (count: nat)
    requires e.Valid() && e.leaf.heap == heap && n >= 1
    requires Ordered(e.Pending()) && Rids(e.Pending()) <= Table(heap.pages).Keys
    modifies heap, e.repr
    ensures heap.Valid()
    ensures Table(heap.pages) == old(Table(heap.pages)) - Taken(old(e.Pending()), |old(e.Pending())|, served)
    ensures count == |old(e.Pending())|
  {
    hide Executor.Valid, Executor.Pending, TableHeap.Valid, Table, Rids, Taken, Ordered;
    count := 0;
    ghost var table, pending := Table(heap.pages), e.Pending();
    e.Apart();
    TakenNone(pending, served);
    var more := true;
    while more
      invariant e.Valid() && e.leaf.heap == heap && heap !in e.repr && heap.Valid() && count <= |pending|
      invariant e.Pending() == pending[count..]
      invariant Table(heap.pages) == table - Taken(pending, count, served)
      invariant !more ==> count == |pending|
      decreases |pending| - count, more
    {
      more, count := DeleteRound(heap, e, n, served, count, table, pending);
    }
  }

  /** Records whose bytes satisfy `p`. */
  ghost function Matching(table: map<RecordId, seq<byte>>, p: Predicate): set<RecordId> {
    set rid | rid in table && p(table[rid])
  }

  /** What a filter over a whole scan yields: the matching records, in order. */
  lemma FilteredScan(pages: Pages, chain: seq<nat>, p: Predicate)
    requires Chained(pages, chain)
    ensures Ordered(Keep(p, AllRows(pages, chain)))
    ensures Rids(Keep(p, AllRows(pages, chain))) == Matching(Table(pages), p) <= Table(pages).Keys
    ensures forall row :: row in Keep(p, AllRows(pages, chain)) ==>
              row.rid in Table(pages) && row.data == Table(pages)[row.rid]
  {
    var rows := AllRows(pages, chain);
    ScanIsTable(pages, chain);
    KeepOrdered(p, rows);
    KeepMembers(p, rows);
    var kept := Keep(p, rows);
    hide AllRows, Keep, Table, Chained;
    forall rid | rid in Matching(Table(pages), p)
      ensures rid in Rids(kept)
    {
      assert Row(rid, Table(pages)[rid]) in kept;
    }
    forall rid | rid in Rids(kept)
      ensures rid in Matching(Table(pages), p)
    {
      var i :| 0 <= i < |kept| && kept[i].rid == rid;
      assert kept[i] in rows && kept[i] == Row(rid, kept[i].data);
    }
  }

  /** A filter over a new scan of the whole table, which gets all its page reads. */
  method FilterOver(heap: TableHeap, p: Predicate, budget: nat) returns (filter: Executor)
    requires heap.Valid() && budget >= |AllRows(heap.pages, heap.chain)| + |heap.chain|
    ensures filter.Valid() && filter.leaf.heap == heap && fresh(filter.repr)
    ensures filter.Pending() == Keep(p, AllRows(heap.pages, heap.chain))
    ensures forall n :: filter.Batched(n)
  {
    hide Executor.Pending, Executor.Batched, TableIterator.Valid, TableIterator.Remaining, TableHeap.Valid, Keep, AllRows;
    var iter := new TableIterator.Begin(heap, budget);
    var scan := new Executor.ScanOf(iter);
    filter := new Executor.Over(Filter(p), scan);
  }

  /** `DELETE FROM t WHERE p`: although the scan runs on the table that is being
      changed, removes exactly the matching rows for whose page the pool has a
      frame. The count is the number of matching rows, and so is right exactly if
      every deletion gets its frame. */
  method DeleteWhere(heap: TableHeap, p: Predicate, n: nat, budget: nat, served: nat -> bool)
    returns (count: nat, ghost gone: set<RecordId>)
    requires heap.Valid() && n >= 1
    requires budget >= |AllRows(heap.pages, heap.chain)| + |heap.chain|
    modifies heap
    ensures heap.Valid()
    ensures gone == old(Taken(Keep(p, AllRows(heap.pages, heap.chain)), |Keep(p, AllRows(heap.pages, heap.chain))|, served))
    ensures Table(heap.pages) == old(Table(heap.pages)) - gone
    ensures gone <= Matching(old(Table(heap.pages)), p)
    ensures count == |Matching(old(Table(heap.pages)), p)|
    ensures count == |gone| <==> forall k: nat :: k < count ==> served(k)
    ensures count == |gone| ==> gone == Matching(old(Table(heap.pages)), p)
  {
    hide Executor.Valid, Executor.Pending, Executor.Batched, Table, Matching, Rids, Taken, Ordered, Keep, AllRows;
    assert Chained(heap.pages, heap.chain);
    hide TableHeap.Valid;
    var filter := FilterOver(heap, p, budget);
    ghost var rows := filter.Pending();
    FilteredScan(heap.pages, heap.chain, p);
    OrderedCount(rows);
    TakenCount(rows, |rows|, served);
    TakenWithin(rows, served);
    gone := Taken(rows, |rows|, served);
    count := Delete(heap, filter, n, served);
  }

  lemma TakenWithin(rows: seq<Row>, served: nat -> bool)
    ensures Taken(rows, |rows|, served) <= Rids(rows)
    ensures (forall k: nat :: k < |rows| ==> served(k)) ==> Taken(rows, |rows|, served) == Rids(rows)
  {
    if forall k: nat :: k < |rows| ==> served(k) {
      TakenAll(rows, served);
    }
  }

  // ---------------------------------------------------------------- update

  /** Table `t` is table `t0` with the records `gone` removed and `values[k]`
      stored at `placed[k]`: every other record is untouched, every value is
      stored exactly once, and nothing else is stored. */
  ghost predicate Rewritten(t0: map<RecordId, seq<byte>>, gone: set<RecordId>, values: seq<seq<byte>>,
                            placed: seq<RecordId>, t: map<RecordId, seq<byte>>) {
    && |placed| == |values|
    && (forall j, k :: 0 <= j < k < |placed| ==> placed[j] != placed[k])
    && (forall k :: 0 <= k < |placed| ==> placed[k] in t && t[placed[k]] == values[k])
    && (forall k :: 0 <= k < |placed| ==> placed[k] in t0 ==> placed[k] in gone)
    && (forall r :: r in t0 && r !in gone ==> r in t && t[r] == t0[r])
    && (forall r :: r in t ==> r in placed || (r in t0 && r !in gone))
  }

  lemma RewriteNone(t: map<RecordId, seq<byte>>)
    ensures Rewritten(t, {}, [], [], t)
  {
  }

  lemma RewriteKeeps(t0: map<RecordId, seq<byte>>, gone: set<RecordId>, values: seq<seq<byte>>,
                     placed: seq<RecordId>, t: map<RecordId, seq<byte>>, r: RecordId)
    requires Rewritten(t0, gone, values, placed, t) && r in t0 && r !in gone
    ensures r in t && t[r] == t0[r]
  {
  }

  /** Deleting one more record and storing its rewriting keeps the account, even
      if the new record id reuses one deleted before. */
  lemma RewriteStep(t0: map<RecordId, seq<byte>>, gone: set<RecordId>, values: seq<seq<byte>>,
                    placed: seq<RecordId>, t: map<RecordId, seq<byte>>, del: RecordId, rid: RecordId, v: seq<byte>)
    requires Rewritten(t0, gone, values, placed, t)
    requires del in t0 && del !in gone && rid !in t - {del}
    ensures Rewritten(t0, gone + {del}, values + [v], placed + [rid], (t - {del})[rid := v])
  {
    var t', placed', values' := (t - {del})[rid := v], placed + [rid], values + [v];
    forall k | 0 <= k < |placed'|
      ensures placed'[k] in t' && t'[placed'[k]] == values'[k]
      ensures placed'[k] in t0 ==> placed'[k] in gone + {del}
      ensures k < |placed| ==> placed'[k] != rid
    {
      if k < |placed| {
        assert placed'[k] == placed[k] && placed[k] != del;
      }
    }
    forall r | r in t'
      ensures r in placed' || (r in t0 && r !in gone + {del})
    {
      if r != rid { assert r in t; }
    }
  }

  /** Deleting a record without storing its rewriting loses it. */
  lemma RewriteLoses(t0: map<RecordId, seq<byte>>, gone: set<RecordId>, values: seq<seq<byte>>,
                     placed: seq<RecordId>, t: map<RecordId, seq<byte>>, del: RecordId)
    requires Rewritten(t0, gone, values, placed, t) && del in t0 && del !in gone
    ensures Rewritten(t0, gone + {del}, values, placed, t - {del})
  {
    assert forall k :: 0 <= k < |placed| ==> placed[k] != del;
  }

  /** Pulls everything the child has, batch by batch. */
  method Materialise(e: Executor, n: nat) returns (rows: seq<Row>)
    requires e.Valid() && n >= 1
    modifies e.repr
    ensures e.Valid() && rows == old(e.Pending())
  {
    hide Executor.Valid, Executor.Pending, Executor.Batched, TableHeap.Valid, Before;
    rows := [];
    ghost var pending := e.Pending();
    e.Apart();
    while true
      invariant e.Valid() && e.leaf.heap !in e.repr
      invariant rows + e.Pending() == pending
      decreases |e.Pending()|
    {
      var ok, batch := e.Next(n);
      if !ok {
        return;
      }
      rows := rows + batch;
    }
  }

  /** What the pool has to give for one row: a frame for its deletion, one for the
      last page, and a new page. */
  datatype Supply = Supply(del: bool, ins: bool, page: Option<nat>)

  /** A row is left alone, deleted only, rewritten, or the process terminates. */
  datatype Fate = Kept | Lost | Moved(rid: RecordId) | Stopped

  predicate Full(s: Supply) { s.del && s.ins && s.page.Some? }

  /** The pages, the last page and the fate of a row whose record `del` is rewritten
      as `v`. */
  function RowAfter(pages: Pages, last: nat, del: RecordId, v: seq<byte>, s: Supply): (Pages, nat, Fate) {
    if !s.del || del.pageId !in pages || del.slotNum >= |pages[del.pageId].slots| || last !in pages then (pages, last, Kept)
    else
      var p := pages[del.pageId := PageLayout.Delete(pages[del.pageId], del.slotNum)];
      if !s.ins then (p, last, Lost)
      else if Fits(p[last], |v|) then
        (p[last := Insert(p[last], v)], last, Moved(RecordId(p[last].id, FirstFree(p[last].slots))))
      else if p[last].count == 0 then (p, last, Stopped)
      else if s.page.None? then (p, last, Lost)
      else
        var id := s.page.value;
        if |v| + SLOT_SIZE > EMPTY_ROOM then (Extended(p, last, id), id, Stopped)
        else (Extended(p, last, id)[id := Insert(EmptyPage(id), v)], id, Moved(RecordId(id, 0)))
  }

  /** The same for the first `n` rows of an update, one after the other. */
  function RunRows(pages: Pages, last: nat, rows: seq<Row>, f: Expression, supply: seq<Supply>, n: nat): (Pages, nat, seq<Fate>)
    requires n <= |rows| == |supply|
  {
    if n == 0 then (pages, last, [])
    else
      var (p, l, fates) := RunRows(pages, last, rows, f, supply, n - 1);
      var (p', l', fate) := RowAfter(p, l, rows[n - 1].rid, f(rows[n - 1].data), supply[n - 1]);
      (p', l', fates + [fate])
  }

  lemma RunNone(pages: Pages, last: nat, rows: seq<Row>, f: Expression, supply: seq<Supply>)
    requires |rows| == |supply|
    ensures RunRows(pages, last, rows, f, supply, 0) == (pages, last, [])
  {
  }

  lemma RunMore(pages: Pages, last: nat, rows: seq<Row>, f: Expression, supply: seq<Supply>, n: nat)
    requires n < |rows| == |supply|
    ensures var (p, l, fates) := RunRows(pages, last, rows, f, supply, n);
            var (p', l', fate) := RowAfter(p, l, rows[n].rid, f(rows[n].data), supply[n]);
            RunRows(pages, last, rows, f, supply, n + 1) == (p', l', fates + [fate])
  {
  }

  /** The numbers of the rows that were moved, in order. */
  function MovedAt(fates: seq<Fate>): seq<nat> {
    if fates == [] then []
    else
      var n := |fates| - 1;
      MovedAt(fates[..n]) + if fates[n].Moved? then [n] else []
  }

  lemma NoneMoved()
    ensures MovedAt([]) == []
  {
  }

  lemma MovedMore(fates: seq<Fate>, fate: Fate)
    ensures MovedAt(fates + [fate]) == if fate.Moved? then MovedAt(fates) + [|fates|] else MovedAt(fates)
  {
    assert (fates + [fate])[..|fates|] == fates;
  }

  /** Rewrites one record: delete first, then insert. */
  method UpdateOne(heap: TableHeap, del: RecordId, v: seq<byte>, s: Supply) returns (r: Fate)
    requires heap.Valid() && del in Table(heap.pages) && v != []
    requires s.page.Some? ==> heap.lastPageId < s.page.value < INVALID_PAGE_ID
    modifies heap
    ensures heap.Valid()
    ensures r == Stopped ==> Table(heap.pages) == old(Table(heap.pages)) - {del} && Aborts(heap.pages[heap.lastPageId], |v|)
    ensures r != Stopped ==> heap.lastPageId == old(heap.lastPageId) || Some(heap.lastPageId) == s.page
    ensures r == Kept ==> Table(heap.pages) == old(Table(heap.pages))
    ensures r == Lost ==> Table(heap.pages) == old(Table(heap.pages)) - {del}
    ensures r.Moved? ==> && r.rid !in old(Table(heap.pages)) - {del}
                         && Table(heap.pages) == (old(Table(heap.pages)) - {del})[r.rid := v]
    ensures r == RowAfter(old(heap.pages), old(heap.lastPageId), del, v, s).2
    ensures r != Stopped ==> (heap.pages, heap.lastPageId, r) == RowAfter(old(heap.pages), old(heap.lastPageId), del, v, s)
    ensures (r == Kept <==> !s.del) && (r.Moved? || r == Stopped ==> s.ins) && (Full(s) ==> r.Moved? || r == Stopped)
    ensures |v| <= SURE_ROOM ==> r != Stopped
  {
    hide Table, Fits;
    PageFacts(heap.pages, heap.chain, heap.lastPageId);
    hide Chained;
    var d := heap.MarkDelete(del, s.del);
    if d != Deleted {
      return Kept;
    }
    var i := heap.InsertTuple(v, s.ins, s.page);
    match i
    case Inserted(rid) => return Moved(rid);
    case NoFrame => return Lost;
    case Aborted => return Stopped;
  }

  function DelServed(supply: seq<Supply>): nat -> bool {
    (k: nat) => k < |supply| && supply[k].del
  }

  /** Row numbers below `n`, in increasing order. */
  predicate Increasing(ks: seq<nat>, n: nat) {
    && (forall a :: 0 <= a < |ks| ==> ks[a] < n)
    && (forall a, b :: 0 <= a < b < |ks| ==> ks[a] < ks[b])
  }

  /** The rewritings of the rows `ks`. */
  function Images(f: Expression, rows: seq<Row>, ks: seq<nat>): (r: seq<seq<byte>>)
    requires Increasing(ks, |rows|)
    ensures |r| == |ks|
  {
    seq(|ks|, a requires 0 <= a < |ks| => f(rows[ks[a]].data))
  }

  /** The rows stored so far had both frames, and every row with a full supply is
      among them. */
  ghost predicate Served(supply: seq<Supply>, n: nat, ks: seq<nat>)
    requires n <= |supply|
  {
    && Increasing(ks, n)
    && (forall a :: 0 <= a < |ks| ==> supply[ks[a]].del && supply[ks[a]].ins)
    && (forall k :: 0 <= k < n && Full(supply[k]) ==> k in ks)
  }

  /** New pages come with increasing ids, all above `last`. */
  ghost predicate Fresh(supply: seq<Supply>, from: nat, last: nat) {
    forall k :: from <= k < |supply| && supply[k].page.Some? ==>
      && last < supply[k].page.value < INVALID_PAGE_ID
      && forall j :: k < j < |supply| && supply[j].page.Some? ==> supply[k].page.value < supply[j].page.value
  }

  lemma ServedStep(supply: seq<Supply>, n: nat, ks: seq<nat>, fate: Fate)
    requires n < |supply| && Served(supply, n, ks)
    requires fate.Moved? ==> supply[n].del && supply[n].ins
    requires Full(supply[n]) ==> fate.Moved?
    ensures Served(supply, n + 1, if fate.Moved? then ks + [n] else ks)
    ensures Increasing(if fate.Moved? then ks + [n] else ks, n + 1)
  {
    hide Full;
    var ks' := if fate.Moved? then ks + [n] else ks;
    forall k | 0 <= k < n + 1 && Full(supply[k])
      ensures k in ks'
    {
      if k < n {
        assert k in ks;
      }
    }
    forall a | 0 <= a < |ks'|
      ensures ks'[a] < n + 1 && supply[ks'[a]].del && supply[ks'[a]].ins
    {
      assert a < |ks| ==> ks'[a] == ks[a];
    }
  }

  lemma RowDone(t0: map<RecordId, seq<byte>>, rows: seq<Row>, f: Expression, supply: seq<Supply>, n: nat, ks: seq<nat>,
                placed: seq<RecordId>, t: map<RecordId, seq<byte>>, t': map<RecordId, seq<byte>>, fate: Fate)
    requires Ordered(rows) && n < |rows| == |supply| && Increasing(ks, n) && rows[n].rid in t0
    requires Rewritten(t0, Taken(rows, n, DelServed(supply)), Images(f, rows, ks), placed, t)
    requires fate != Stopped && (fate == Kept <==> !supply[n].del)
    requires fate == Kept ==> t' == t
    requires fate == Lost ==> t' == t - {rows[n].rid}
    requires fate.Moved? ==> fate.rid !in t - {rows[n].rid} && t' == (t - {rows[n].rid})[fate.rid := f(rows[n].data)]
    ensures Increasing(if fate.Moved? then ks + [n] else ks, |rows|)
    ensures Rewritten(t0, Taken(rows, n + 1, DelServed(supply)), Images(f, rows, if fate.Moved? then ks + [n] else ks),
                      if fate.Moved? then placed + [fate.rid] else placed, t')
  {
    hide Ordered, Taken, Rewritten;
    var served := DelServed(supply);
    TakenStep(rows, n, served);
    var gone := Taken(rows, n, served);
    match fate {
      case Kept => assert gone + {} == gone;
      case Lost => RewriteLoses(t0, gone, Images(f, rows, ks), placed, t, rows[n].rid);
      case Moved(rid) =>
        RewriteStep(t0, gone, Images(f, rows, ks), placed, t, rows[n].rid, rid, f(rows[n].data));
        assert Images(f, rows, ks + [n]) == Images(f, rows, ks) + [f(rows[n].data)];
    }
  }

  /** The account of an update that has dealt with the first `n` rows. */
  ghost predicate Account(t0: map<RecordId, seq<byte>>, rows: seq<Row>, f: Expression, supply: seq<Supply>, n: nat,
                          ks: seq<nat>, placed: seq<RecordId>, t: map<RecordId, seq<byte>>) {
    && n <= |rows| == |supply| && Served(supply, n, ks)
    && Rewritten(t0, Taken(rows, n, DelServed(supply)), Images(f, rows, ks), placed, t)
  }

  lemma NothingStored(t0: map<RecordId, seq<byte>>, rows: seq<Row>, f: Expression, supply: seq<Supply>)
    requires |supply| == |rows|
    ensures Account(t0, rows, f, supply, 0, [], [], t0)
  {
    TakenNone(rows, DelServed(supply));
    RewriteNone(t0);
    assert Images(f, rows, []) == [];
  }

  /** A row whose turn has not come is still in the table. */
  lemma RowStays(t0: map<RecordId, seq<byte>>, rows: seq<Row>, f: Expression, supply: seq<Supply>, n: nat, ks: seq<nat>,
                 placed: seq<RecordId>, t: map<RecordId, seq<byte>>)
    requires Ordered(rows) && n < |rows| && Rids(rows) <= t0.Keys
    requires Account(t0, rows, f, supply, n, ks, placed, t)
    ensures rows[n].rid in t0 && rows[n].rid in t
  {
    hide Rewritten, Ordered, Taken;
    RidsHold(rows, n);
    TakenStep(rows, n, DelServed(supply));
    RewriteKeeps(t0, Taken(rows, n, DelServed(supply)), Images(f, rows, ks), placed, t, rows[n].rid);
  }

  /** The account after one more row. */
  lemma RowAccounted(t0: map<RecordId, seq<byte>>, rows: seq<Row>, f: Expression, supply: seq<Supply>, n: nat, ks: seq<nat>,
                     placed: seq<RecordId>, t: map<RecordId, seq<byte>>, t': map<RecordId, seq<byte>>, fate: Fate)
    requires Ordered(rows) && n < |rows| && rows[n].rid in t0
    requires Account(t0, rows, f, supply, n, ks, placed, t)
    requires fate != Stopped && (fate == Kept <==> !supply[n].del)
    requires fate.Moved? ==> supply[n].ins
    requires Full(supply[n]) ==> fate.Moved?
    requires fate == Kept ==> t' == t
    requires fate == Lost ==> t' == t - {rows[n].rid}
    requires fate.Moved? ==> fate.rid !in t - {rows[n].rid} && t' == (t - {rows[n].rid})[fate.rid := f(rows[n].data)]
    ensures if fate.Moved? then Account(t0, rows, f, supply, n + 1, ks + [n], placed + [fate.rid], t')
            else Account(t0, rows, f, supply, n + 1, ks, placed, t')
  {
    hide Rewritten, Ordered, Taken, Full;
    ServedStep(supply, n, ks, fate);
    RowDone(t0, rows, f, supply, n, ks, placed, t, t', fate);
  }

  /** The account of an update that stopped at row `k`, which was deleted: the rows
      before it are dealt with, and those after it untouched. */
  ghost predicate StoppedAt(t0: map<RecordId, seq<byte>>, rows: seq<Row>, f: Expression, supply: seq<Supply>, k: nat,
                            ks: seq<nat>, placed: seq<RecordId>, t: map<RecordId, seq<byte>>) {
    && k < |rows| == |supply| && supply[k].del && supply[k].ins && Served(supply, k, ks)
    && Rewritten(t0, Taken(rows, k + 1, DelServed(supply)), Images(f, rows, ks), placed, t)
  }

  lemma RowStopped(t0: map<RecordId, seq<byte>>, rows: seq<Row>, f: Expression, supply: seq<Supply>, n: nat, ks: seq<nat>,
                   placed: seq<RecordId>, t: map<RecordId, seq<byte>>)
    requires Ordered(rows) && n < |rows| && rows[n].rid in t0
    requires Account(t0, rows, f, supply, n, ks, placed, t) && supply[n].del && supply[n].ins
    ensures StoppedAt(t0, rows, f, supply, n, ks, placed, t - {rows[n].rid})
  {
    hide Rewritten, Ordered, Taken;
    TakenStep(rows, n, DelServed(supply));
    RewriteLoses(t0, Taken(rows, n, DelServed(supply)), Images(f, rows, ks), placed, t, rows[n].rid);
  }

  lemma FreshStep(supply: seq<Supply>, k: nat, last: nat, last': nat)
    requires Fresh(supply, k, last) && k < |supply|
    requires last' == last || Some(last') == supply[k].page
    ensures Fresh(supply, k + 1, last')
    ensures supply[k].page.Some? ==> last < supply[k].page.value < INVALID_PAGE_ID
  {
  }

  /** `UpdateExecutor::next` once its child is drained: for every selected row,
      deletes it and inserts its rewriting. `supply[k]` is what the pool has for the
      `k`-th row, `stored` numbers the rows that were rewritten. A row that is
      deleted but not stored again is lost. Not done means that the insertion of the
      rewriting of row `stop` terminated the process, which those of up to 456 bytes
      never do. */
  method UpdateRows(heap: TableHeap, rows: seq<Row>, f: Expression, supply: seq<Supply>)
    returns (done: bool, count: nat, ghost stored: seq<nat>, ghost placed: seq<RecordId>, ghost stop: nat,
             ghost fates: seq<Fate>)
    requires heap.Valid() && |supply| == |rows|
    requires Ordered(rows) && Rids(rows) <= Table(heap.pages).Keys
    requires forall t :: f(t) != []
    requires Fresh(supply, 0, heap.lastPageId)
    modifies heap
    ensures (forall row :: row in rows ==> |f(row.data)| <= SURE_ROOM) ==> done
    ensures heap.Valid() && count == |stored|
    ensures done ==> Account(old(Table(heap.pages)), rows, f, supply, |rows|, stored, placed, Table(heap.pages))
    ensures done ==> (heap.pages, heap.lastPageId, fates) ==
                     RunRows(old(heap.pages), old(heap.lastPageId), rows, f, supply, |rows|)
    ensures !done ==> && stop < |rows| && fates == RunRows(old(heap.pages), old(heap.lastPageId), rows, f, supply, stop).2
                      && RunRows(old(heap.pages), old(heap.lastPageId), rows, f, supply, stop + 1).2 == fates + [Stopped]
    ensures Stopped !in fates && stored == MovedAt(fates)
    ensures !done ==> && StoppedAt(old(Table(heap.pages)), rows, f, supply, stop, stored, placed, Table(heap.pages))
                      && Aborts(heap.pages[heap.lastPageId], |f(rows[stop].data)|)
  {
    hide RowAfter, RunRows, MovedAt, Rids, Ordered, Table, Account, StoppedAt, Aborts, Fits, Fresh, Full, TableHeap.Valid;
    ghost var t0, pages0, last0 := Table(heap.pages), heap.pages, heap.lastPageId;
    count, stored, placed, stop, fates := 0, [], [], 0, [];
    NothingStored(t0, rows, f, supply);
    NoneMoved();
    RunNone(pages0, last0, rows, f, supply);
    for k := 0 to |rows|
      invariant heap.Valid() && Fresh(supply, k, heap.lastPageId) && count == |stored|
      invariant (heap.pages, heap.lastPageId, fates) == RunRows(pages0, last0, rows, f, supply, k)
      invariant Stopped !in fates && stored == MovedAt(fates) && |fates| == k
      invariant Account(t0, rows, f, supply, k, stored, placed, Table(heap.pages))
    {
      var del, v := rows[k].rid, f(rows[k].data);
      RunMore(pages0, last0, rows, f, supply, k);
      ghost var t, last := Table(heap.pages), heap.lastPageId;
      RowStays(t0, rows, f, supply, k, stored, placed, t);
      FreshStep(supply, k, last, last);
      var fate := UpdateOne(heap, del, v, supply[k]);
      if fate == Stopped {
        RowStopped(t0, rows, f, supply, k, stored, placed, t);
        done, stop := false, k;
        return;
      }
      FreshStep(supply, k, last, heap.lastPageId);
      MovedMore(fates, fate);
      fates := fates + [fate];
      RowAccounted(t0, rows, f, supply, k, stored, placed, t, Table(heap.pages), fate);
      if fate.Moved? {
        count, stored, placed := count + 1, stored + [k], placed + [fate.rid];
      }
    }
    done := true;
  }

  /** With full supplies every row is stored. */
  lemma AllStored(t0: map<RecordId, seq<byte>>, rows: seq<Row>, f: Expression, supply: seq<Supply>, ks: seq<nat>,
                  placed: seq<RecordId>, t: map<RecordId, seq<byte>>)
    requires Account(t0, rows, f, supply, |rows|, ks, placed, t)
    requires forall k :: 0 <= k < |supply| ==> Full(supply[k])
    ensures ks == seq(|rows|, k => k)
  {
    hide Full, Rewritten, Taken, Images;
    IncreasingAll(ks, |supply|);
  }

  lemma RisesTo(ks: seq<nat>, n: nat, a: nat, b: nat)
    requires Increasing(ks, n) && a <= b < |ks|
    ensures ks[b] < n && (a < b ==> ks[a] < ks[b])
  {
  }

  lemma {:induction false} IncreasingAll(ks: seq<nat>, n: nat)
    requires Increasing(ks, n) && forall k :: 0 <= k < n ==> k in ks
    ensures ks == seq(n, k => k)
  {
    if n == 0 {
      assert ks == [];
    } else {
      assert (n - 1) in ks;
      var i :| 0 <= i < |ks| && ks[i] == n - 1;
      RisesTo(ks, n, i, |ks| - 1);
      assert i == |ks| - 1;
      var front := ks[..i];
      forall k | 0 <= k < n - 1
        ensures k in front
      {
        assert k in ks;
        var j :| 0 <= j < |ks| && ks[j] == k;
        assert front[j] == k;
      }
      IncreasingAll(front, n - 1);
      assert ks == front + [n - 1];
    }
  }

  /** `UPDATE t SET .. = f WHERE p`: `rows` are the matching rows, each once, in
      scan order. Those numbered in `stored` are rewritten exactly once; every row
      whose deletion got no frame, and every row that does not match, is left alone
      (no Halloween effect), although record ids freed by the update are used again
      by it. With enough frames all matching rows are rewritten. */
  method UpdateWhere(heap: TableHeap, p: Predicate, f: Expression, n: nat, budget: nat, supply: seq<Supply>)
    returns (done: bool, count: nat, ghost rows: seq<Row>, ghost stored: seq<nat>, ghost placed: seq<RecordId>,
             ghost stop: nat, ghost fates: seq<Fate>)
    requires heap.Valid() && n >= 1
    requires budget >= |AllRows(heap.pages, heap.chain)| + |heap.chain|
    requires |supply| == |Matching(Table(heap.pages), p)|
    requires forall t :: f(t) != []
    requires Fresh(supply, 0, heap.lastPageId)
    modifies heap
    ensures rows == old(Keep(p, AllRows(heap.pages, heap.chain))) && Ordered(rows)
    ensures |rows| == |supply| && Rids(rows) == Matching(old(Table(heap.pages)), p)
    ensures forall row :: row in rows ==> row.rid in old(Table(heap.pages)) && row.data == old(Table(heap.pages))[row.rid]
    ensures (forall row :: row in rows ==> |f(row.data)| <= SURE_ROOM) ==> done
    ensures heap.Valid() && count == |stored|
    ensures done ==> Account(old(Table(heap.pages)), rows, f, supply, |rows|, stored, placed, Table(heap.pages))
    ensures done ==> (heap.pages, heap.lastPageId, fates) ==
                     RunRows(old(heap.pages), old(heap.lastPageId), rows, f, supply, |rows|)
    ensures !done ==> && stop < |rows| && fates == RunRows(old(heap.pages), old(heap.lastPageId), rows, f, supply, stop).2
                      && RunRows(old(heap.pages), old(heap.lastPageId), rows, f, supply, stop + 1).2 == fates + [Stopped]
    ensures Stopped !in fates && stored == MovedAt(fates)
    ensures !done ==> && StoppedAt(old(Table(heap.pages)), rows, f, supply, stop, stored, placed, Table(heap.pages))
                      && Aborts(heap.pages[heap.lastPageId], |f(rows[stop].data)|)
    ensures done && (forall k :: 0 <= k < |supply| ==> Full(supply[k])) ==>
              && stored == seq(|rows|, k => k) && count == |Matching(old(Table(heap.pages)), p)|
              && Taken(rows, |rows|, DelServed(supply)) == Matching(old(Table(heap.pages)), p)
  {
    hide Executor.Valid, Executor.Pending, Executor.Batched, Table, Rewritten, Matching, Rids, Taken, Ordered, Keep, AllRows, Served, Images, Aborts, RunRows, MovedAt, StoppedAt, Account;
    assert Chained(heap.pages, heap.chain);
    hide TableHeap.Valid;
    var filter := FilterOver(heap, p, budget);
    FilteredScan(heap.pages, heap.chain, p);
    OrderedCount(filter.Pending());
    var all := Materialise(filter, n);
    rows := all;
    done, count, stored, placed, stop, fates := UpdateRows(heap, all, f, supply);
    TakenWithin(rows, DelServed(supply));
    if done && forall k :: 0 <= k < |supply| ==> Full(supply[k]) {
      AllStored(old(Table(heap.pages)), rows, f, supply, stored, placed, Table(heap.pages));
    }
  }
}
