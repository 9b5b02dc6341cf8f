/** The linked chain of slotted pages as a value: what it stores by record id,
    and the order in which a scan meets its rows. */
module HeapChain {
  import opened Config
  import opened Bytes
  import opened PageLayout
  import opened PageHistory

  /** The pages of one table file by page id, as the buffer pool shows them. */
  type Pages = map<nat, Page>

  datatype Row = Row(rid: RecordId, data: seq<byte>)

  /** Every page carries its own id, is within capacity, counts its tuples and has
      no more slots than insertions can have made. */
  ghost predicate Healthy(pages: Pages) {
    forall pid :: pid in pages ==>
      pages[pid].id == pid < INVALID_PAGE_ID && InCapacity(pages[pid]) && Counted(pages[pid]) && FewSlots(pages[pid])
  }

  ghost predicate OnChain(chain: seq<nat>, pid: nat) {
    exists i :: 0 <= i < |chain| && chain[i] == pid
  }

  /** `chain` lists the pages from first to last: ids increase strictly, each
      page links to the next, and the table file has no other page. */
  ghost predicate Linked(pages: Pages, chain: seq<nat>) {
    && |chain| > 0
    && (forall pid :: pid in pages ==> OnChain(chain, pid))
    && (forall i, j :: 0 <= i < j < |chain| ==> chain[i] < chain[j])
    && (forall i :: 0 <= i < |chain| ==> LinkAt(pages, chain, i))
  }

  ghost predicate LinkAt(pages: Pages, chain: seq<nat>, i: nat)
    requires i < |chain|
  {
    chain[i] in pages && pages[chain[i]].next == Successor(chain, i)
  }

  function Successor(chain: seq<nat>, i: nat): nat
    requires i < |chain|
  {
    if i == |chain| - 1 then INVALID_PAGE_ID else chain[i + 1]
  }

  ghost predicate Chained(pages: Pages, chain: seq<nat>) {
    Linked(pages, chain) && Healthy(pages)
  }

  /** What a heap operation knows of one page of the chain. */
  lemma PageFacts(pages: Pages, chain: seq<nat>, pid: nat)
    requires Chained(pages, chain) && pid in pages
    ensures pages[pid].id == pid < INVALID_PAGE_ID
    ensures InCapacity(pages[pid]) && Counted(pages[pid]) && FewSlots(pages[pid])
  {
  }

  lemma ChainFacts(pages: Pages, chain: seq<nat>, i: nat)
    requires Chained(pages, chain) && i < |chain|
    ensures chain[i] in pages && chain[i] < INVALID_PAGE_ID
    ensures pages[chain[i]].next == Successor(chain, i) > chain[i]
  {
    assert LinkAt(pages, chain, i);
  }

  lemma ChainNonEmpty(pages: Pages, chain: seq<nat>)
    requires Chained(pages, chain)
    ensures |chain| > 0 && chain[|chain| - 1] in pages
  {
    assert LinkAt(pages, chain, |chain| - 1);
  }

  predicate IsLive(pages: Pages, rid: RecordId) {
    rid.pageId in pages && rid.slotNum < |pages[rid.pageId].slots| && pages[rid.pageId].slots[rid.slotNum] != []
  }

  /** The table as a map from record ids to byte strings. */
  ghost function Table(pages: Pages): (m: map<RecordId, seq<byte>>)
    ensures forall rid :: rid in m <==> IsLive(pages, rid)
    ensures forall rid :: rid in m ==> IsLive(pages, rid) && m[rid] == pages[rid.pageId].slots[rid.slotNum]
  {
    var rids := set pid, k | pid in pages && 0 <= k < |pages[pid].slots| :: RecordId(pid, k);
    assert forall rid :: IsLive(pages, rid) ==> rid in rids;
    map rid | rid in rids && IsLive(pages, rid) :: pages[rid.pageId].slots[rid.slotNum]
  }

  // ---------------------------------------------------------------- scan order

  /** Live rows of page `p` from slot `k` on. */
  function PageRows(p: Page, k: nat): seq<Row>
    decreases |p.slots| - k
  {
    if k >= |p.slots| then []
    else (if p.slots[k] == [] then [] else [Row(RecordId(p.id, k), p.slots[k])]) + PageRows(p, k + 1)
  }

  /** Live rows from slot `k` of the `i`-th page of the chain to the end. */
  ghost function RowsFrom(pages: Pages, chain: seq<nat>, i: nat, k: nat): seq<Row>
    requires Chained(pages, chain)
    decreases |chain| - i
  {
    if i >= |chain| then []
    else
      assert LinkAt(pages, chain, i);
      PageRows(pages[chain[i]], k) + RowsFrom(pages, chain, i + 1, 0)
  }

  lemma RowsFromPage(pages: Pages, chain: seq<nat>, i: nat, k: nat)
    requires Chained(pages, chain) && i < |chain|
    ensures chain[i] in pages
    ensures RowsFrom(pages, chain, i, k) == PageRows(pages[chain[i]], k) + RowsFrom(pages, chain, i + 1, 0)
    ensures i + 1 == |chain| ==> RowsFrom(pages, chain, i + 1, 0) == []
  {
    assert LinkAt(pages, chain, i);
  }

  ghost function AllRows(pages: Pages, chain: seq<nat>): seq<Row>
    requires Chained(pages, chain)
  {
    RowsFrom(pages, chain, 0, 0)
  }

  /** Lexicographic order of record ids; along the chain page ids increase, so
      this is also the order of (chain position, slot). */
  predicate Before(a: RecordId, b: RecordId) {
    a.pageId < b.pageId || (a.pageId == b.pageId && a.slotNum < b.slotNum)
  }

  ghost predicate Ordered(rows: seq<Row>) {
    forall a, b :: 0 <= a < b < |rows| ==> Before(rows[a].rid, rows[b].rid)
  }

  lemma OrderedNone()
    ensures Ordered([])
  {
  }

  lemma OrderedConcat(a: seq<Row>, b: seq<Row>)
    requires Ordered(a) && Ordered(b)
    requires forall x, y :: x in a && y in b ==> Before(x.rid, y.rid)
    ensures Ordered(a + b)
  {
    forall i, j | 0 <= i < |a| && 0 <= j < |b|
      ensures Before(a[i].rid, b[j].rid)
    {
      assert a[i] in a && b[j] in b;
    }
  }

  lemma OrderedOne(row: Row)
    ensures Ordered([row])
  {
  }

  lemma {:induction false} PageRowsExact(p: Page, k: nat)
    ensures Ordered(PageRows(p, k))
    ensures forall row :: row in PageRows(p, k) <==>
              row.rid.pageId == p.id && k <= row.rid.slotNum < |p.slots| &&
              p.slots[row.rid.slotNum] != [] && row.data == p.slots[row.rid.slotNum]
    decreases |p.slots| - k
  {
    hide Ordered;
    OrderedNone();
    if k < |p.slots| {
      PageRowsExact(p, k + 1);
      var rest, here := PageRows(p, k + 1), Row(RecordId(p.id, k), p.slots[k]);
      if p.slots[k] == [] {
        assert PageRows(p, k) == [] + rest == rest;
      } else {
        assert PageRows(p, k) == [here] + rest;
        OrderedOne(here);
        OrderedConcat([here], rest);
      }
      hide PageRows;
    }
  }

  lemma NothingBetween(pages: Pages, chain: seq<nat>, i: nat, pid: nat)
    requires Linked(pages, chain) && i < |chain| && pid in pages && pid > chain[i]
    ensures i + 1 < |chain| && pid >= chain[i + 1]
  {
    var j :| 0 <= j < |chain| && chain[j] == pid;
  }

  /** A record at or after slot `k` of the `i`-th page is on that page or behind it. */
  lemma PlaceOf(pages: Pages, chain: seq<nat>, i: nat, k: nat, rid: RecordId)
    requires Linked(pages, chain) && i < |chain| && rid.pageId in pages
    ensures !Before(rid, RecordId(chain[i], k)) <==>
            || (rid.pageId == chain[i] && k <= rid.slotNum)
            || (i + 1 < |chain| && !Before(rid, RecordId(chain[i + 1], 0)))
  {
    hide OnChain, LinkAt;
    if rid.pageId > chain[i] {
      NothingBetween(pages, chain, i, rid.pageId);
    }
  }

  /** Scan exactness: the rows from a position on are exactly the live records
      at or after it, in order, each once, with its stored bytes. */
  lemma {:induction false} RowsExact(pages: Pages, chain: seq<nat>, i: nat, k: nat)
    requires Chained(pages, chain)
    ensures Ordered(RowsFrom(pages, chain, i, k))
    ensures forall row :: row in RowsFrom(pages, chain, i, k) <==>
              row.rid in Table(pages) && row.data == Table(pages)[row.rid] &&
              i < |chain| && !Before(row.rid, RecordId(chain[i], k))
    decreases |chain| - i
  {
    hide Linked, Healthy, PageRows, Ordered;
    OrderedNone();
    if i < |chain| {
      ChainFacts(pages, chain, i);
      PageFacts(pages, chain, chain[i]);
      PageRowsExact(pages[chain[i]], k);
      RowsExact(pages, chain, i + 1, 0);
      RowsFromPage(pages, chain, i, k);
      hide RowsFrom, Table;
      forall rid | rid in Table(pages)
        ensures !Before(rid, RecordId(chain[i], k)) <==>
                || (rid.pageId == chain[i] && k <= rid.slotNum)
                || (i + 1 < |chain| && !Before(rid, RecordId(chain[i + 1], 0)))
      {
        PlaceOf(pages, chain, i, k, rid);
      }
      if i + 1 < |chain| {
        ChainFacts(pages, chain, i + 1);
      }
      OrderedConcat(PageRows(pages[chain[i]], k), RowsFrom(pages, chain, i + 1, 0));
    }
  }

  /** A whole scan meets every record of the table exactly once. */
  lemma ScanIsTable(pages: Pages, chain: seq<nat>)
    requires Chained(pages, chain)
    ensures Ordered(AllRows(pages, chain))
    ensures forall rid, t :: Row(rid, t) in AllRows(pages, chain) <==> rid in Table(pages) && Table(pages)[rid] == t
  {
    RowsExact(pages, chain, 0, 0);
    forall rid | rid in Table(pages)
      ensures !Before(rid, RecordId(chain[0], 0))
    {
      var j :| 0 <= j < |chain| && chain[j] == rid.pageId;
    }
  }

  // ---------------------------------------------------------------- changes to the chain

  const EMPTY_ROOM := PAGE_SIZE - HEADER_SIZE

  function EmptyPage(id: nat): Page {
    Page(id, INVALID_PAGE_ID, [], 0)
  }

  /** The chain with an empty page `id` linked behind its last page. */
  function Extended(pages: Pages, last: nat, id: nat): Pages
    requires last in pages
  {
    pages[last := pages[last].(next := id)][id := EmptyPage(id)]
  }

  lemma ExtendedLinked(pages: Pages, chain: seq<nat>, id: nat)
    requires Linked(pages, chain) && chain[|chain| - 1] < id && chain[|chain| - 1] in pages
    ensures id !in pages
    ensures Linked(Extended(pages, chain[|chain| - 1], id), chain + [id])
  {
    hide OnChain;
    var n, last := |chain|, chain[|chain| - 1];
    var pages', chain' := Extended(pages, last, id), chain + [id];
    assert id !in pages by { if id in pages { NothingBetween(pages, chain, n - 1, id); } }
    forall pid | pid in pages'
      ensures OnChain(chain', pid)
    {
      OnChainGrows(chain, id, pid);
    }
    forall i | 0 <= i < |chain'|
      ensures LinkAt(pages', chain', i)
    {
      if i < n { assert LinkAt(pages, chain, i); }
    }
  }

  lemma OnChainGrows(chain: seq<nat>, id: nat, pid: nat)
    ensures OnChain(chain, pid) || pid == id ==> OnChain(chain + [id], pid)
  {
    if pid == id {
      assert (chain + [id])[|chain|] == pid;
    } else if OnChain(chain, pid) {
      var i :| 0 <= i < |chain| && chain[i] == pid;
      assert (chain + [id])[i] == pid;
    }
  }

  lemma ExtendedChained(pages: Pages, chain: seq<nat>, id: nat)
    requires Chained(pages, chain) && chain[|chain| - 1] < id < INVALID_PAGE_ID && chain[|chain| - 1] in pages
    ensures id !in pages
    ensures Chained(Extended(pages, chain[|chain| - 1], id), chain + [id])
  {
    ExtendedLinked(pages, chain, id);
    LiveEmpty();
    hide Linked, Live, LiveCount;
  }

  lemma ExtendedTable(pages: Pages, last: nat, id: nat)
    requires last in pages && id !in pages
    ensures Table(Extended(pages, last, id)) == Table(pages)
  {
    hide Table;
    var pages' := Extended(pages, last, id);
    assert forall rid :: IsLive(pages', rid) <==> IsLive(pages, rid);
  }

  lemma UpdatedLinked(pages: Pages, chain: seq<nat>, pages': Pages)
    requires Linked(pages, chain) && pages'.Keys == pages.Keys
    requires forall pid :: pid in pages ==> pages'[pid].next == pages[pid].next
    ensures Linked(pages', chain)
  {
    hide OnChain;
    forall i | 0 <= i < |chain|
      ensures LinkAt(pages', chain, i)
    {
      assert LinkAt(pages, chain, i);
    }
  }

  lemma UpdatedChained(pages: Pages, chain: seq<nat>, pid: nat, p: Page)
    requires Chained(pages, chain) && pid in pages
    requires p.id == pid && p.next == pages[pid].next && InCapacity(p) && Counted(p) && FewSlots(p)
    ensures Chained(pages[pid := p], chain)
  {
    UpdatedLinked(pages, chain, pages[pid := p]);
    hide Linked, InCapacity, Counted, FewSlots;
  }

  /** Rewriting slot `k` of one page rewrites one record of the table. */
  lemma SlotTable(pages: Pages, pid: nat, p: Page, k: nat, t: seq<byte>)
    requires pid in pages && k < |p.slots| && p.slots[k] == t && |pages[pid].slots| <= |p.slots|
    requires forall j :: 0 <= j < |pages[pid].slots| && j != k ==> p.slots[j] == pages[pid].slots[j]
    requires forall j :: |pages[pid].slots| <= j < |p.slots| && j != k ==> p.slots[j] == []
    ensures Table(pages[pid := p]) ==
            if t == [] then Table(pages) - {RecordId(pid, k)} else Table(pages)[RecordId(pid, k) := t]
  {
    hide Table;
    var pages' := pages[pid := p];
    assert IsLive(pages', RecordId(pid, k)) <==> t != [];
    forall rid | rid != RecordId(pid, k)
      ensures IsLive(pages', rid) <==> IsLive(pages, rid)
      ensures IsLive(pages, rid) ==> pages'[rid.pageId].slots[rid.slotNum] == pages[rid.pageId].slots[rid.slotNum]
    {
    }
  }

  /** An insertion on one page adds exactly one record to the table. */
  lemma InsertTable(pages: Pages, chain: seq<nat>, pid: nat, t: seq<byte>)
    requires Chained(pages, chain) && pid in pages && Fits(pages[pid], |t|) && t != []
    ensures Chained(pages[pid := Insert(pages[pid], t)], chain)
    ensures var rid := RecordId(pid, FirstFree(pages[pid].slots));
            && rid !in Table(pages)
            && Table(pages[pid := Insert(pages[pid], t)]) == Table(pages)[rid := t]
  {
    hide Live, LiveCount, Usable, Fits, Table;
    InsertMeans(pages[pid], t);
    InsertFewSlots(pages[pid], t);
    UpdatedChained(pages, chain, pid, Insert(pages[pid], t));
    SlotTable(pages, pid, Insert(pages[pid], t), FirstFree(pages[pid].slots), t);
  }

  /** A deletion on one page removes exactly that record. */
  lemma DeleteTable(pages: Pages, chain: seq<nat>, rid: RecordId)
    requires Chained(pages, chain) && rid.pageId in pages && rid.slotNum < |pages[rid.pageId].slots|
    ensures Chained(pages[rid.pageId := Delete(pages[rid.pageId], rid.slotNum)], chain)
    ensures Table(pages[rid.pageId := Delete(pages[rid.pageId], rid.slotNum)]) == Table(pages) - {rid}
  {
    hide Live, LiveCount, Usable, Table;
    var p := pages[rid.pageId];
    DeleteMeans(p, rid.slotNum);
    UpdatedChained(pages, chain, rid.pageId, Delete(p, rid.slotNum));
    SlotTable(pages, rid.pageId, Delete(p, rid.slotNum), rid.slotNum, []);
  }

  // ---------------------------------------------------------------- scans across changes

  lemma SameEmptiness(a: seq<Row>, b: seq<Row>)
    requires forall row :: row in a <==> row in b
    ensures a == [] <==> b == []
  {
    var noRows: seq<Row> := [];
    assert (forall row :: row in a <==> row in noRows) ==> a == noRows by {
      if a != noRows { assert a[0] in a && a[0] !in noRows; }
    }
    assert (forall row :: row in b <==> row in noRows) ==> b == noRows by {
      if b != noRows { assert b[0] in b && b[0] !in noRows; }
    }
  }

  lemma {:induction false} OrderedUnique(a: seq<Row>, b: seq<Row>)
    requires Ordered(a) && Ordered(b)
    requires forall row :: row in a <==> row in b
    ensures a == b
  {
    if |a| == 0 || |b| == 0 {
      assert |a| == |b| by {
        SameEmptiness(a, b);
      }
    } else {
      assert a[0] in b && b[0] in a;
      var a', b' := a[1..], b[1..];
      forall row
        ensures row in a' <==> row in b'
      {
        assert row in a <==> row == a[0] || row in a';
        assert row in b <==> row == b[0] || row in b';
      }
      OrderedUnique(a', b');
    }
  }

  /** What a scan still has to visit depends only on the records at or after
      its position. */
  lemma RowsFromFrame(pages: Pages, chain: seq<nat>, pages': Pages, i: nat, k: nat)
    requires Chained(pages, chain) && Chained(pages', chain) && i < |chain|
    requires forall rid :: !Before(rid, RecordId(chain[i], k)) ==>
                             (rid in Table(pages) <==> rid in Table(pages'))
    requires forall rid :: !Before(rid, RecordId(chain[i], k)) && rid in Table(pages) ==>
                             Table(pages)[rid] == Table(pages')[rid]
    ensures RowsFrom(pages', chain, i, k) == RowsFrom(pages, chain, i, k)
  {
    RowsExact(pages, chain, i, k);
    RowsExact(pages', chain, i, k);
    hide Table;
    OrderedUnique(RowsFrom(pages', chain, i, k), RowsFrom(pages, chain, i, k));
  }

  // ---------------------------------------------------------------- when an insertion aborts

  /** An insertion that cannot use a page without live tuples terminates the
      process, as if the tuple could fit on no page at all. */
  predicate Aborts(last: Page, size: nat) {
    !Fits(last, size) && last.count == 0
  }

  /** For a tuple that fits an empty page this happens exactly if every slot of
      the last page is deleted and the slot array leaves too little room. */
  lemma AbortsIff(last: Page, size: nat)
    requires InCapacity(last) && Counted(last) && size + SLOT_SIZE <= EMPTY_ROOM
    ensures Aborts(last, size) <==>
            (forall k :: 0 <= k < |last.slots| ==> last.slots[k] == []) && EMPTY_ROOM - SLOT_SIZE * |last.slots| < size
  {
    LiveCountBound(last.slots);
  }

  /** A page that insertions and deletions can produce never aborts for tuples of
      up to 456 bytes. */
  lemma SureRoom(last: Page, size: nat)
    requires InCapacity(last) && Counted(last) && FewSlots(last) && size <= SURE_ROOM
    ensures !Aborts(last, size)
  {
    LiveCountBound(last.slots);
  }

  ghost predicate NonEmptyTuples(ops: seq<Op>) {
    forall i :: 0 <= i < |ops| && ops[i].Ins? ==> ops[i].t != []
  }

  /** After filling a page with one-byte tuples and deleting them all, every tuple
      of more than 456 bytes aborts. */
  lemma AbortsAfterFill(id: nat, size: nat)
    requires SURE_ROOM < size
    ensures NonEmptyTuples(FillAndDelete())
    ensures Aborts(Run(EmptyPage(id), FillAndDelete()).0, size)
  {
    hide Run, FillAndDelete, Striped, Aborts;
    FillIsNonEmpty();
    FillAndDeleteRuns(id);
    StripedAborts(id, size);
  }

  lemma FillIsNonEmpty()
    ensures NonEmptyTuples(FillAndDelete())
  {
    var inserts, deletes := Inserts(MAX_SLOTS), Deletes(0, MAX_SLOTS);
    assert NonEmptyTuples(inserts) && NonEmptyTuples(deletes);
    hide Inserts, Deletes;
    assert FillAndDelete() == inserts + deletes;
  }

  lemma StripedAborts(id: nat, size: nat)
    requires SURE_ROOM < size
    ensures Aborts(Striped(id, MAX_SLOTS, 0), size)
  {
    StripedLive(id, MAX_SLOTS, 0);
    hide Live, FirstFree;
  }

  /** For a tuple that fits an empty page: some history of insertions and deletions
      leads to an abort exactly if the tuple has more than 456 bytes. */
  lemma AbortReachableIff(id: nat, size: nat)
    requires size + SLOT_SIZE <= EMPTY_ROOM
    ensures (exists ops :: NonEmptyTuples(ops) && Aborts(Run(EmptyPage(id), ops).0, size)) <==> size > SURE_ROOM
  {
    hide Run, Aborts, FillAndDelete;
    if size > SURE_ROOM {
      AbortsAfterFill(id, size);
    } else {
      forall ops | NonEmptyTuples(ops)
        ensures !Aborts(Run(EmptyPage(id), ops).0, size)
      {
        LiveEmpty();
        HistoryRefinesMap(EmptyPage(id), ops);
        HistoryFewSlots(EmptyPage(id), ops);
        SureRoom(Run(EmptyPage(id), ops).0, size);
      }
    }
  }
}
