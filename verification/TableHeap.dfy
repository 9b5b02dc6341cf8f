/** The table heap and its iterator. The pages of the table's file are held as
    the values the buffer pool shows; whether the pool has a frame to give is an
    argument of each operation. */
module TableHeap {
  import opened Config
  import opened Bytes
  import opened PageLayout
  import opened PageHistory
  import opened HeapChain

  datatype InsertOutcome = Inserted(rid: RecordId) | NoFrame | Aborted
  datatype DeleteOutcome = Deleted | DeleteNoFrame | InvalidSlot
  datatype ReadOutcome = Found(data: seq<byte>) | ReadNoFrame | ReadThrows

  class TableHeap {
    var pages: Pages
    var firstPageId: nat
    var lastPageId: nat
    var freeSpaceMap: map<nat, nat>
    ghost var chain: seq<nat>

    /** The chain is well formed and every free-space entry is the page's real
        usable space. */
    ghost predicate Valid()
      reads this
    {
      && Chained(pages, chain)
      && firstPageId == chain[0] && lastPageId == chain[|chain| - 1] && lastPageId in pages
      && forall pid :: pid in freeSpaceMap ==> pid in pages && freeSpaceMap[pid] == Usable(pages[pid])
    }

    /** A new table on the page `id` that the pool handed out. */
    constructor Create(id: nat)
      requires id < INVALID_PAGE_ID
      ensures Valid() && chain == [id]
      ensures Table(pages) == map[]
      ensures freeSpaceMap == map[id := EMPTY_ROOM]
    {
      pages := map[id := EmptyPage(id)];
      firstPageId := id;
      lastPageId := id;
      freeSpaceMap := map[id := EMPTY_ROOM];
      chain := [id];
      OnChainGrows([], id, id);
      LiveEmpty();
    }

    /** Reopens the table that starts at page `first`. The pool serves `budget`
        page reads before it runs out of frames; the last page is found exactly
        if that is enough for the whole chain. */
    constructor Open(stored: Pages, first: nat, ghost links: seq<nat>, budget: nat)
      requires Chained(stored, links) && links[0] == first
      ensures pages == stored && chain == links && firstPageId == first
      ensures freeSpaceMap == map[]
      ensures if budget >= |links| then Valid() else lastPageId == INVALID_PAGE_ID
    {
      hide Chained;
      ChainNonEmpty(stored, links);
      pages := stored;
      firstPageId := first;
      lastPageId := INVALID_PAGE_ID;
      freeSpaceMap := map[];
      chain := links;
      new;
      var current, next, left := first, first, budget;
      ghost var i := 0;
      ChainFacts(stored, links, 0);
      while next != INVALID_PAGE_ID
        invariant 0 <= i <= |links| && left == budget - i
        invariant lastPageId == INVALID_PAGE_ID
        invariant pages == stored && chain == links && firstPageId == first && freeSpaceMap == map[]
        invariant next == if i == |links| then INVALID_PAGE_ID else links[i]
        invariant current == if i == |links| then links[i - 1] else links[i]
        decreases |links| - i
      {
        if left == 0 {
          return;
        }
        ChainFacts(stored, links, i);
        if i + 1 < |links| { ChainFacts(stored, links, i + 1); }
        next := stored[current].next;
        if next != INVALID_PAGE_ID {
          current := next;
        }
        left, i := left - 1, i + 1;
      }
      if i < |links| {
        ChainFacts(stored, links, i);
      }
      lastPageId := current;
    }

    /** Stores `t` on the last page, which has room, and records what is left. */
    method StoreOnLast(t: seq<byte>) returns (rid: RecordId)
      requires Valid() && t != [] && Fits(pages[lastPageId], |t|)
      modifies this
      ensures Valid() && firstPageId == old(firstPageId) && chain == old(chain)
      ensures rid == RecordId(lastPageId, FirstFree(old(pages[lastPageId]).slots))
      ensures rid !in old(Table(pages)) && Table(pages) == old(Table(pages))[rid := t]
      ensures lastPageId == old(lastPageId) && pages == old(pages)[lastPageId := Insert(old(pages)[lastPageId], t)]
      ensures freeSpaceMap.Keys == old(freeSpaceMap.Keys) + {lastPageId}
    {
      hide Live, LiveCount, Table, Usable, Chained, Fits;
      ChainNonEmpty(pages, chain);
      var page := pages[lastPageId];
      InsertTable(pages, chain, lastPageId, t);
      pages := pages[lastPageId := Insert(page, t)];
      PageFacts(pages, chain, lastPageId);
      freeSpaceMap := freeSpaceMap[lastPageId := Usable(pages[lastPageId])];
      rid := RecordId(lastPageId, FirstFree(page.slots));
    }

    /** Links the empty page `id` behind the last page. */
    method LinkPage(id: nat)
      requires Valid() && lastPageId < id < INVALID_PAGE_ID
      modifies this
      ensures Valid() && firstPageId == old(firstPageId) && chain == old(chain) + [id]
      ensures lastPageId == id && id in pages && pages[id] == EmptyPage(id)
      ensures Table(pages) == old(Table(pages))
      ensures pages == Extended(old(pages), old(lastPageId), id)
      ensures freeSpaceMap.Keys == old(freeSpaceMap.Keys) + {old(lastPageId)}
    {
      hide Live, LiveCount, Table, Chained;
      ChainNonEmpty(pages, chain);
      ExtendedChained(pages, chain, id);
      ExtendedTable(pages, lastPageId, id);
      pages := Extended(pages, lastPageId, id);
      chain := chain + [id];
      PageFacts(pages, chain, lastPageId);
      freeSpaceMap := freeSpaceMap[lastPageId := Usable(pages[lastPageId])];
      lastPageId := id;
    }

    /** Inserts on the last page, or else on a page linked behind it.
        `fetchOk` says whether the pool can pin the last page and `alloc` which
        new page it can hand out, if any. */
    method InsertTuple(t: seq<byte>, fetchOk: bool, alloc: Option<nat>) returns (r: InsertOutcome)
      requires Valid() && t != []
      requires alloc.Some? ==> lastPageId < alloc.value < INVALID_PAGE_ID
      modifies this
      ensures firstPageId == old(firstPageId) && Valid()
      ensures r == NoFrame ==> pages == old(pages) && chain == old(chain) && freeSpaceMap == old(freeSpaceMap)
      ensures r.Inserted? ==>
                && freeSpaceMap.Keys == old(freeSpaceMap.Keys) + {old(lastPageId), lastPageId}
                && pages == if lastPageId == old(lastPageId) then old(pages)[lastPageId := Insert(old(pages)[lastPageId], t)]
                            else Extended(old(pages), old(lastPageId), lastPageId)[lastPageId := Insert(EmptyPage(lastPageId), t)]
      ensures r.Inserted? ==> && r.rid !in old(Table(pages))
                              && Table(pages) == old(Table(pages))[r.rid := t]
                              && old(chain) <= chain && lastPageId == r.rid.pageId
      ensures var last := old(pages[lastPageId]);
              r == if !fetchOk then NoFrame
                   else if Fits(last, |t|) then Inserted(RecordId(last.id, FirstFree(last.slots)))
                   else if last.count == 0 then Aborted
                   else if alloc.None? then NoFrame
                   else if |t| + SLOT_SIZE <= EMPTY_ROOM then Inserted(RecordId(alloc.value, 0))
                   else Aborted
      ensures r == Aborted ==> Table(pages) == old(Table(pages)) && Aborts(pages[lastPageId], |t|)
      ensures |t| <= SURE_ROOM ==> r != Aborted
    {
      hide Live, LiveCount, Table, Chained, Fits;
      ChainNonEmpty(pages, chain);
      PageFacts(pages, chain, lastPageId);
      EmptyFits(alloc, |t|);
      if |t| <= SURE_ROOM {
        SureRoom(pages[lastPageId], |t|);
      }
      LiveEmpty();
      if !fetchOk {
        return NoFrame;
      }
      ghost var extended, last := false, pages[lastPageId];
      while true
        invariant Valid() && lastPageId in pages && firstPageId == old(firstPageId)
        invariant Table(pages) == old(Table(pages)) && old(chain) <= chain
        invariant !extended ==> && pages == old(pages) && chain == old(chain) && lastPageId == old(lastPageId)
                                && freeSpaceMap == old(freeSpaceMap)
        invariant extended ==> && alloc.Some? && lastPageId == alloc.value > old(lastPageId)
                               && pages == Extended(old(pages), old(lastPageId), lastPageId)
                               && freeSpaceMap.Keys == old(freeSpaceMap.Keys) + {old(lastPageId)}
                               && pages[lastPageId] == EmptyPage(lastPageId)
                               && !Fits(last, |t|) && last.count > 0
        decreases !extended
      {
        if Fits(pages[lastPageId], |t|) {
          var rid := StoreOnLast(t);
          return Inserted(rid);
        }
        if pages[lastPageId].count == 0 {
          return Aborted;
        }
        if alloc.None? {
          return NoFrame;
        }
        LinkPage(alloc.value);
        extended := true;
      }
    }

    /** Deletes one record. A page that is not the table's reads as zeros, which
        have no slots. */
    method MarkDelete(rid: RecordId, fetchOk: bool) returns (r: DeleteOutcome)
      requires Valid()
      modifies this
      ensures Valid()
      ensures chain == old(chain) && firstPageId == old(firstPageId) && lastPageId == old(lastPageId)
      ensures r == if !fetchOk then DeleteNoFrame
                   else if rid.pageId in old(pages) && rid.slotNum < |old(pages)[rid.pageId].slots| then Deleted
                   else InvalidSlot
      ensures r == Deleted ==> Table(pages) == old(Table(pages)) - {rid}
      ensures r == Deleted ==> pages == old(pages)[rid.pageId := Delete(old(pages)[rid.pageId], rid.slotNum)]
      ensures r == Deleted ==> freeSpaceMap.Keys == old(freeSpaceMap.Keys) + {rid.pageId}
      ensures r != Deleted ==> pages == old(pages) && freeSpaceMap == old(freeSpaceMap)
    {
      hide Live, LiveCount, Table, Usable, Chained;
      if !fetchOk {
        return DeleteNoFrame;
      }
      if rid.pageId !in pages {
        return InvalidSlot;
      }
      var page := pages[rid.pageId];
      if rid.slotNum >= |page.slots| {
        return InvalidSlot;
      }
      DeleteTable(pages, chain, rid);
      pages := pages[rid.pageId := Delete(page, rid.slotNum)];
      PageFacts(pages, chain, rid.pageId);
      freeSpaceMap := freeSpaceMap[rid.pageId := Usable(pages[rid.pageId])];
      r := Deleted;
    }

    method GetTuple(rid: RecordId, fetchOk: bool) returns (r: ReadOutcome)
      requires Valid()
      ensures r == if !fetchOk then ReadNoFrame
                   else if rid in Table(pages) then Found(Table(pages)[rid]) else ReadThrows
    {
      if !fetchOk {
        return ReadNoFrame;
      }
      if rid.pageId !in pages {
        return ReadThrows;
      }
      var page := pages[rid.pageId];
      if rid.slotNum >= |page.slots| || page.slots[rid.slotNum] == [] {
        r := ReadThrows;
      } else {
        r := Found(page.slots[rid.slotNum]);
      }
    }
  }

  lemma EmptyFits(id: Option<nat>, size: nat)
    ensures id.Some? ==> (Fits(EmptyPage(id.value), size) <==> size + SLOT_SIZE <= EMPTY_ROOM)
    ensures id.Some? ==> EmptyPage(id.value).count == 0
  {
    LiveEmpty();
  }

  /** Page reads that a scan makes from slot `k` of the `i`-th page on: one for each
      row it meets, and one for each page it leaves. */
  ghost function Reads(pages: Pages, chain: seq<nat>, i: nat, k: nat): int
    requires Chained(pages, chain)
  {
    |RowsFrom(pages, chain, i, k)| + |chain| - i
  }

  /** A cursor over the table: the record id it stands on and that record's
      bytes, copied when it arrived there. The pool serves `budget` more page reads
      before it runs out of frames. */
  class TableIterator {
    const heap: TableHeap
    var current: RecordId
    var tuple: seq<byte>
    var budget: nat
    ghost var at: nat

    /** On a record: the chain position is known. Otherwise at the end. */
    ghost predicate Valid()
      reads this, heap
    {
      && heap.Valid()
      && current.pageId <= INVALID_PAGE_ID
      && (current.pageId != INVALID_PAGE_ID ==> at < |heap.chain| && heap.chain[at] == current.pageId)
    }

    /** The rows this iterator has yet to yield, the current one included. */
    ghost function Remaining(): seq<Row>
      requires Valid()
      reads this, heap
    {
      if current.pageId == INVALID_PAGE_ID then []
      else [Row(current, tuple)] + RowsFrom(heap.pages, heap.chain, at, current.slotNum + 1)
    }

    /** The page reads that takes. */
    ghost function Owed(): int
      requires Valid()
      reads this, heap
    {
      if current.pageId == INVALID_PAGE_ID then 0 else Reads(heap.pages, heap.chain, at, current.slotNum + 1)
    }

    /** Every page read that the rest of the scan makes gets a frame. */
    ghost predicate Funded()
      reads this, heap
    {
      Valid() && budget >= Owed()
    }

    /** `begin()`: stands on the first live row of the table, if the pool serves
        the reads to get there. */
    constructor Begin(h: TableHeap, budget: nat)
      requires h.Valid()
      ensures heap == h && Valid()
      ensures Funded() <==> budget >= |AllRows(h.pages, h.chain)| + |h.chain|
      ensures Funded() ==> Remaining() == AllRows(h.pages, h.chain)
      ensures budget > 0 && IsLive(h.pages, RecordId(h.firstPageId, 0)) ==>
                current == RecordId(h.firstPageId, 0) && tuple == h.pages[h.firstPageId].slots[0] &&
                this.budget == budget - 1
    {
      heap := h;
      current := RecordId(h.firstPageId, 0);
      tuple := [];
      at := 0;
      this.budget := budget;
      new;
      ChainFacts(h.pages, h.chain, 0);
      var _ := AdvanceToValid();
    }

    /** The first occupied slot of `page` at or after `k`, or one past its slots. */
    static method SkipDeleted(page: Page, k: nat) returns (next: nat)
      ensures k <= next && (next < |page.slots| ==> page.slots[next] != [])
      ensures k < |page.slots| && page.slots[k] != [] ==> next == k
      ensures PageRows(page, next) == PageRows(page, k)
    {
      next := k;
      while next < |page.slots| && page.slots[next] == []
        invariant k <= next
        invariant k < |page.slots| && page.slots[k] != [] ==> next == k
        invariant PageRows(page, next) == PageRows(page, k)
      {
        next := next + 1;
      }
    }

    /** Moves forward, across pages, to the first live row at or after the
        current position and loads it. If a page read gets no frame it stops where
        it is, with the bytes of the row before. */
    method AdvanceToValid() returns (ghost ok: bool)
      requires Valid() && current.pageId != INVALID_PAGE_ID
      modifies this
      ensures Valid() && !Before(current, old(current))
      ensures ok ==> Remaining() == old(RowsFrom(heap.pages, heap.chain, at, current.slotNum))
      ensures ok ==> budget - Owed() == old(budget - Reads(heap.pages, heap.chain, at, current.slotNum))
      ensures !ok ==> budget == 0 && tuple == old(tuple) && current.pageId != INVALID_PAGE_ID
      ensures !ok ==> old(budget) < old(Reads(heap.pages, heap.chain, at, current.slotNum))
      ensures old(budget) == 0 ==> !ok && current == old(current)
      ensures old(budget) > 0 && IsLive(heap.pages, old(current)) ==>
                current == old(current) && tuple == heap.pages[current.pageId].slots[current.slotNum] &&
                budget == old(budget) - 1
    {
      hide Usable, Chained, RowsFrom, Reads, PageRows;
      ghost var target := RowsFrom(heap.pages, heap.chain, at, current.slotNum);
      ghost var slack := budget - Reads(heap.pages, heap.chain, at, current.slotNum);
      while current.pageId != INVALID_PAGE_ID
        invariant Valid() && tuple == old(tuple)
        invariant target == if current.pageId == INVALID_PAGE_ID then []
                            else RowsFrom(heap.pages, heap.chain, at, current.slotNum)
        invariant slack == budget - if current.pageId == INVALID_PAGE_ID then 0
                                    else Reads(heap.pages, heap.chain, at, current.slotNum)
        invariant !Before(current, old(current)) && current.pageId <= INVALID_PAGE_ID
        invariant old(budget) == 0 || IsLive(heap.pages, old(current)) ==> current == old(current) && budget == old(budget)
        decreases if current.pageId == INVALID_PAGE_ID then 0 else |heap.chain| - at
      {
        ghost var i, k0 := at, current.slotNum;
        ReadPage(heap.pages, heap.chain, i, k0);
        if budget == 0 {
          return false;
        }
        var page := heap.pages[current.pageId];
        var k := SkipDeleted(page, current.slotNum);
        budget := budget - 1;
        current := current.(slotNum := k);
        StopOrLeave(heap.pages, heap.chain, i, k0, k);
        if k < |page.slots| {
          tuple := page.slots[k];
          return true;
        }
        at := at + 1;
        current := RecordId(page.next, 0);
      }
      current := RecordId(INVALID_PAGE_ID, 0);
      ok := true;
    }

    /** `operator++`: drops the current row, if the pool serves the reads to reach
        the next one. Otherwise the cursor stands on the next slot with the bytes
        of the row before, whatever that slot holds. */
    method Next() returns (ghost ok: bool)
      requires Valid() && current.pageId != INVALID_PAGE_ID
      modifies this
      ensures Valid() && Before(old(current), current)
      ensures ok ==> Remaining() == old(Remaining())[1..] && budget - Owed() == old(budget - Owed())
      ensures !ok ==> budget == 0 && tuple == old(tuple) && current.pageId != INVALID_PAGE_ID
      ensures !ok ==> old(budget) < old(Owed())
      ensures old(budget) == 0 ==> !ok && current == old(current).(slotNum := old(current).slotNum + 1)
    {
      hide Usable, Chained, RowsFrom;
      current := current.(slotNum := current.slotNum + 1);
      ok := AdvanceToValid();
    }

    /** Copies out the current row and moves on. */
    method Yield() returns (row: Row)
      requires Valid() && current.pageId != INVALID_PAGE_ID
      modifies this
      ensures Valid() && row == Row(old(current), old(tuple)) && Before(row.rid, current)
      ensures Funded() <==> old(Funded())
      ensures Funded() ==> old(Remaining()) == [row] + Remaining()
      ensures old(budget) == 0 ==>
                budget == 0 && tuple == old(tuple) && current == old(current).(slotNum := old(current).slotNum + 1)
    {
      hide Chained, RowsFrom;
      row := Row(current, tuple);
      var _ := Next();
    }

    lemma AtEndIff()
      requires Valid()
      ensures Remaining() == [] <==> current.pageId == INVALID_PAGE_ID
      ensures current.pageId == INVALID_PAGE_ID ==> Funded()
    {
    }

    /** `SeqScanExecutor::next`: yields up to `n` rows from the cursor on. A cursor
        that is owed more reads than it will get never runs out of rows. */
    method Batch(n: nat) returns (rows: seq<Row>)
      requires Valid()
      modifies this
      ensures Valid() && (Funded() <==> old(Funded()))
      ensures Funded() ==> rows + Remaining() == old(Remaining())
      ensures |rows| == if old(Funded()) && |old(Remaining())| < n then |old(Remaining())| else n
      ensures !Before(current, old(current))
      ensures forall i :: 0 <= i < |rows| ==> Before(rows[i].rid, current)
    {
      hide TableIterator.Remaining, TableIterator.Valid, TableIterator.Funded;
      rows := [];
      while |rows| < n && current.pageId != INVALID_PAGE_ID
        invariant Valid() && |rows| <= n
        invariant Funded() <==> old(Funded())
        invariant Funded() ==> rows + Remaining() == old(Remaining())
        invariant !Before(current, old(current))
        invariant forall i :: 0 <= i < |rows| ==> Before(rows[i].rid, current)
        decreases n - |rows|
      {
        ghost var rows0, before := rows, Remaining();
        var row := Yield();
        rows := rows + [row];
        assert Funded() ==> rows + Remaining() == rows0 + before;
      }
      AtEndIff();
    }
  }

  /** What a page read finds at slot `k` of the `i`-th page. */
  lemma ReadPage(pages: Pages, chain: seq<nat>, i: nat, k: nat)
    requires Chained(pages, chain) && i < |chain|
    ensures chain[i] in pages && chain[i] < INVALID_PAGE_ID && pages[chain[i]].id == chain[i]
    ensures pages[chain[i]].next == Successor(chain, i) > chain[i]
    ensures if i + 1 == |chain| then pages[chain[i]].next == INVALID_PAGE_ID
            else pages[chain[i]].next == chain[i + 1] < INVALID_PAGE_ID
    ensures Reads(pages, chain, i, k) > 0
  {
    ChainFacts(pages, chain, i);
    PageFacts(pages, chain, chain[i]);
    if i + 1 < |chain| {
      ChainFacts(pages, chain, i + 1);
    }
  }

  /** After skipping to slot `k` the scan stops at its row or leaves the page; either
      takes the read that was made. */
  lemma StopOrLeave(pages: Pages, chain: seq<nat>, i: nat, k0: nat, k: nat)
    requires Chained(pages, chain) && i < |chain| && chain[i] in pages
    requires PageRows(pages[chain[i]], k) == PageRows(pages[chain[i]], k0)
    requires k < |pages[chain[i]].slots| ==> pages[chain[i]].slots[k] != []
    ensures var page := pages[chain[i]];
            if k < |page.slots| then
              && RowsFrom(pages, chain, i, k0) == [Row(RecordId(page.id, k), page.slots[k])] + RowsFrom(pages, chain, i, k + 1)
              && Reads(pages, chain, i, k0) == 1 + Reads(pages, chain, i, k + 1)
            else
              && RowsFrom(pages, chain, i, k0) == RowsFrom(pages, chain, i + 1, 0)
              && Reads(pages, chain, i, k0) == 1 + Reads(pages, chain, i + 1, 0)
    ensures i + 1 == |chain| ==> RowsFrom(pages, chain, i + 1, 0) == [] && Reads(pages, chain, i + 1, 0) == 0
  {
    hide Chained, RowsFrom;
    RowsFromPage(pages, chain, i, k0);
    RowsFromPage(pages, chain, i, k);
    RowsFromPage(pages, chain, i, k + 1);
  }

  /** A whole scan, pulled as one batch that is large enough: it yields exactly the
      rows of the table if and only if every page read gets a frame. */
  method ScanAll(heap: TableHeap, budget: nat, n: nat) returns (rows: seq<Row>)
    requires heap.Valid() && n > |AllRows(heap.pages, heap.chain)|
    ensures rows == AllRows(heap.pages, heap.chain) <==>
            budget >= |AllRows(heap.pages, heap.chain)| + |heap.chain|
  {
    hide TableIterator.Remaining, TableIterator.Valid, TableIterator.Funded, TableHeap.Valid, AllRows;
    var iter := new TableIterator.Begin(heap, budget);
    rows := iter.Batch(n);
  }

  /** A scan that gets one page read of a table whose first page starts with two
      live rows: under the second row's record id it yields the first row's bytes. */
  method PhantomRow(heap: TableHeap) returns (first: Row, second: Row)
    requires heap.Valid()
    requires heap.firstPageId in heap.pages && |heap.pages[heap.firstPageId].slots| >= 2
    requires var slots := heap.pages[heap.firstPageId].slots; slots[0] != [] && slots[1] != [] && slots[0] != slots[1]
    ensures first.rid in Table(heap.pages) && first.data == Table(heap.pages)[first.rid]
    ensures second.rid in Table(heap.pages) && second.data == first.data != Table(heap.pages)[second.rid]
  {
    hide RowsFrom, Chained, Reads, Healthy;
    ChainNonEmpty(heap.pages, heap.chain);
    PageFacts(heap.pages, heap.chain, heap.firstPageId);
    var iter := new TableIterator.Begin(heap, 1);
    first := iter.Yield();
    second := iter.Yield();
  }
}
