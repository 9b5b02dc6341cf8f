/** Page guards as objects: a guard pins its page and holds its latch until it is
    dropped, and moving a guard moves that duty. */
module PageGuard {
  import opened Config
  import opened PageLayout
  import opened ArcPolicy
  import opened BufferPool
  import opened PoolInvariant
  import opened BufferPoolManager
  import opened GuardProtocol

  /** The shared mutex of a frame. */
  datatype Latch = Latch(writer: bool, readers: nat)

  function CanLock(l: Latch, mode: Mode): bool {
    !l.writer && (mode == Exclusive ==> l.readers == 0)
  }

  function Held(l: Latch, mode: Mode): bool {
    if mode == Exclusive then l.writer else l.readers > 0
  }

  function Locked(l: Latch, mode: Mode): Latch {
    if mode == Exclusive then l.(writer := true) else l.(readers := l.readers + 1)
  }

  function Unlocked(l: Latch, mode: Mode): Latch
    requires Held(l, mode)
  {
    if mode == Exclusive then l.(writer := false) else l.(readers := l.readers - 1)
  }

  class LatchTable {
    var latches: seq<Latch>

    constructor (n: nat)
      ensures latches == seq(n, _ => Latch(false, 0))
    {
      latches := seq(n, _ => Latch(false, 0));
    }
  }

  /** A guard over a page may be taken in `mode` without waiting: nobody excludes
      it from the page's latch, and frames without pins have their latch free. */
  ghost predicate Available(p: Pool, latches: seq<Latch>, k: Key, mode: Mode) {
    && |latches| == |p.frames|
    && (k in p.table && p.table[k] < |latches| ==> CanLock(latches[p.table[k]], mode))
    && forall f :: 0 <= f < |latches| && p.frames[f].pins == 0 ==> latches[f] == Latch(false, 0)
  }

  class PageGuard {
    const bpm: BufferPoolManager
    const table: LatchTable
    const mode: Mode
    var page: Option<nat>

    /** The guard holds its page: the page is pinned and its latch taken. */
    ghost predicate Valid()
      reads this, bpm, bpm.frames, bpm.replacer, table
    {
      page.Some? ==>
        && bpm.Valid()
        && page.value < bpm.frames.Length && page.value < |table.latches|
        && bpm.frames[page.value].pins > 0
        && Held(table.latches[page.value], mode)
    }

    constructor (bpm: BufferPoolManager, table: LatchTable, mode: Mode, page: Option<nat>)
      requires page.Some? ==>
                 && bpm.Valid() && page.value < bpm.frames.Length && bpm.frames[page.value].pins > 0
                 && page.value < |table.latches| && CanLock(table.latches[page.value], mode)
      modifies table
      ensures Valid() && this.bpm == bpm && this.table == table && this.mode == mode && this.page == page
      ensures page.None? ==> table.latches == old(table.latches)
      ensures page.Some? ==>
                table.latches == old(table.latches)[page.value := Locked(old(table.latches[page.value]), mode)]
    {
      this.bpm, this.table, this.mode, this.page := bpm, table, mode, page;
      new;
      if page.Some? {
        table.latches := table.latches[page.value := Locked(table.latches[page.value], mode)];
      }
    }

    /** Releases latch and pin once; dropping again does nothing. A dropped write
        guard leaves its page dirty. */
    method Drop()
      requires Valid()
      modifies this, bpm, bpm.frames, bpm.replacer, table
      ensures page == None && Valid()
      ensures old(page).None? ==> bpm.Model() == old(bpm.Model()) && table.latches == old(table.latches)
      ensures old(page).Some? ==>
                var f := old(page).value;
                && bpm.Valid()
                && bpm.Model() == Unpin(old(bpm.Model()), KeyOf(old(bpm.frames[f])), mode == Exclusive).0
                && f < bpm.frames.Length
                && bpm.frames[f] == old(bpm.frames[f]).(pins := old(bpm.frames[f]).pins - 1,
                                                        dirty := old(bpm.frames[f]).dirty || mode == Exclusive)
                && SameFramesBut(old(bpm.Model()), bpm.Model(), f) && SameShown(old(bpm.Model()), bpm.Model())
                && table.latches == old(table.latches)[f := Unlocked(old(table.latches[f]), mode)]
    {
      hide Coupled, SameShown;
      if page.Some? {
        var f := page.value;
        PinnedIsLive(bpm.Model(), f);
        table.latches := table.latches[f := Unlocked(table.latches[f], mode)];
        var _ := bpm.UnpinPage(KeyOf(bpm.frames[f]), mode == Exclusive);
      }
      page := None;
    }

    /** Drops the page held so far and takes over the other guard's; assigning a
        guard to itself changes nothing. Two guards on one page are two readers,
        each with its own pin and its own share of the latch. */
    method MoveAssign(other: PageGuard)
      requires Valid() && other.Valid()
      requires other.bpm == bpm && other.table == table && other.mode == mode
      requires other != this && page.Some? && page == other.page ==>
                 bpm.frames[page.value].pins > 1 && mode == Shared && table.latches[page.value].readers > 1
      modifies this, other, bpm, bpm.frames, bpm.replacer, table
      ensures Valid() && other.Valid()
      ensures page == old(other.page) && (other != this ==> other.page == None)
      ensures other == this || old(page).None? ==>
                bpm.Model() == old(bpm.Model()) && table.latches == old(table.latches)
      ensures other != this && old(page).Some? ==>
                var f := old(page).value;
                && bpm.Valid()
                && bpm.Model() == Unpin(old(bpm.Model()), KeyOf(old(bpm.frames[f])), mode == Exclusive).0
                && table.latches == old(table.latches)[f := Unlocked(old(table.latches[f]), mode)]
    {
      hide Coupled, SameShown;
      if this != other {
        Drop();
        page := other.page;
        other.page := None;
      }
    }
  }

  /** What opening a guard on `k` does: the page is fetched, and its latch locked
      unless the fetch failed. */
  ghost predicate Opened(p: Pool, latches: seq<Latch>, k: Key, mode: Mode, q: Pool, latches': seq<Latch>, v: Option<nat>) {
    && Fetched(p, k, q, v)
    && (v.None? ==> latches' == latches)
    && (v.Some? ==> v.value < |latches| && latches' == latches[v.value := Locked(latches[v.value], mode)])
  }

  /** A fetched page's latch can be locked if the page was available. */
  lemma FetchedIsFree(p: Pool, latches: seq<Latch>, k: Key, mode: Mode, q: Pool, f: nat)
    requires Coupled(p) && Available(p, latches, k, mode) && Fetched(p, k, q, Some(f))
    ensures f < |latches| && CanLock(latches[f], mode)
  {
    hide Coupled, SameShown;
    if p.frames[f].pins > 0 {
      PinnedIsLive(p, f);
    }
  }

  /** Pins page `k` and locks its latch; it fails exactly if the fetch does. */
  method OpenGuard(bpm: BufferPoolManager, table: LatchTable, k: Key, mode: Mode, ghost writers: set<nat>)
      returns (guard: PageGuard?)
    requires Good(bpm.Model(), writers) && k in bpm.disk && Available(bpm.Model(), table.latches, k, mode)
    modifies bpm, bpm.frames, bpm.replacer, table
    ensures Opened(old(bpm.Model()), old(table.latches), k, mode, bpm.Model(), table.latches,
                   if guard == null then None else guard.page)
    ensures Good(bpm.Model(), writers)
    ensures guard != null ==>
              && fresh(guard) && guard.Valid() && guard.page.Some?
              && guard.bpm == bpm && guard.table == table && guard.mode == mode
  {
    hide Coupled, Synced, WritersPinned, SameShown, Available, CanLock;
    ghost var before := bpm.Model();
    var v := bpm.FetchPage(k, writers);
    if v.None? {
      return null;
    }
    FetchedIsFree(before, table.latches, k, mode, bpm.Model(), v.value);
    guard := new PageGuard(bpm, table, mode, v);
  }

  /** Fetching a page and unpinning it gives every frame the pins it had before,
      and leaves what the cache shows unchanged. */
  lemma PinRoundTrip(p: Pool, k: Key, dirty: bool, writers: set<nat>)
    requires Good(p, writers) && k in p.disk && Fetch(p, k).1.Some?
    ensures Coupled(Fetch(p, k).0)
    ensures var (q, ok) := Unpin(Fetch(p, k).0, k, dirty);
            && ok && Coupled(q) && SameShown(p, q) && |q.frames| == |p.frames|
            && forall f :: 0 <= f < |p.frames| ==> q.frames[f].pins == p.frames[f].pins
  {
    hide Coupled, Synced, WritersPinned, Fetch, Unpin;
    FetchKeeps(p, k, writers);
    UnpinCoupled(Fetch(p, k).0, k, dirty);
  }
}
