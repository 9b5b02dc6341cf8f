/** Every pool operation keeps table, free list and replacer coupled, and none
    but a guard's write changes what the cache shows for an allocated page. */
module PoolInvariant {
  import opened Config
  import opened PageLayout
  import opened ArcPolicy
  import opened ArcInvariant
  import opened BufferPool

  lemma FreshPoolGood(n: nat)
    ensures Good(FreshPool(n), {})
  {
    var p := FreshPool(n);
    InitialInv(n);
    forall f: nat | f < n
      ensures f in p.free
    {
      assert p.free[f] == f;
    }
  }

  lemma LiveFact(p: Pool, f: nat)
    requires LiveFrames(p.frames, p.table, p.arc.alive) && f in p.arc.alive
    ensures f < |p.frames| && KeyOf(p.frames[f]) in p.table && p.table[KeyOf(p.frames[f])] == f
    ensures p.arc.alive[f].page == p.frames[f].page && (p.arc.alive[f].evictable <==> p.frames[f].pins == 0)
  {
  }

  // ---------------------------------------------------------------- acquiring a frame

  /** Which frame is found: the first free one, or else the replacer's choice. */
  ghost predicate Found(p: Pool, f: nat, arc: Arc, free: seq<nat>) {
    if p.free != [] then f == p.free[0] && free == p.free[1..] && arc == p.arc
    else free == [] && Evicted(p.arc, arc, Some(f))
  }

  /** The replacer and the free list after page `page` has entered the frame found. */
  ghost predicate Entered(p: Pool, f: nat, page: nat, q: Pool) {
    exists arc :: Found(p, f, arc, q.free) && Touched(arc, f, page, q.arc)
  }

  /** Pool `q` is `p` with frame `f`, unpinned before, in nobody's hands. */
  ghost predicate Acquired(p: Pool, q: Pool, f: nat) {
    && f < |p.frames| && p.frames[f].pins == 0
    && CoupledBut(q, {f})
    && q.frames == p.frames && q.disk.Keys == p.disk.Keys && q.next == p.next
    && (forall k :: k in q.table <==> k in p.table && p.table[k] != f)
    && (forall k :: k in q.table ==> q.table[k] == p.table[k])
    && q.arc.alive == p.arc.alive - {f}
    && Found(p, f, q.arc, q.free)
  }

  /** The first free frame is nobody's, and the others stay free. */
  lemma PopList(frames: seq<Frame>, free: seq<nat>, alive: map<nat, Status>)
    requires FreeFrames(frames, free, alive) && Covered(|frames|, free, alive, {}) && free != []
    ensures free[0] < |frames| && free[0] !in alive
    ensures frames[free[0]].page == INVALID_PAGE_ID && frames[free[0]].pins == 0
    ensures FreeFrames(frames, free[1..], alive) && Covered(|frames|, free[1..], alive, {free[0]})
  {
    assert free[0] in free;
    var rest := free[1..];
    forall f | f in rest
      ensures f in free && f != free[0]
    {
      var i :| 0 <= i < |rest| && rest[i] == f;
      assert free[i + 1] == f;
    }
    forall f | f in free && f != free[0]
      ensures f in rest
    {
      var i :| 0 <= i < |free| && free[i] == f;
      assert rest[i - 1] == f;
    }
  }

  lemma PopFree(p: Pool)
    requires Coupled(p) && p.free != []
    ensures Acquire(p).1 == Some(p.free[0])
    ensures Acquire(p).0 == p.(free := p.free[1..])
    ensures Acquired(p, Acquire(p).0, p.free[0])
  {
    hide Inv, TableFrames, LiveFrames, Allocated, FreeFrames, Covered;
    PopList(p.frames, p.free, p.arc.alive);
    assert p.arc.alive - {p.free[0]} == p.arc.alive;
    TableAlive(p);
  }

  lemma TableAlive(p: Pool)
    requires TableFrames(p.frames, p.table, p.arc.alive)
    ensures forall k :: k in p.table ==> p.table[k] in p.arc.alive
  {
  }

  /** Dropping a live frame from table and replacer leaves the rest coupled. */
  lemma DropFrame(frames: seq<Frame>, table: map<Key, nat>, alive: map<nat, Status>, f: nat)
    requires TableFrames(frames, table, alive) && LiveFrames(frames, table, alive) && f in alive
    ensures f < |frames| && KeyOf(frames[f]) in table
    ensures TableFrames(frames, table - {KeyOf(frames[f])}, alive - {f})
    ensures LiveFrames(frames, table - {KeyOf(frames[f])}, alive - {f})
    ensures forall l :: l in table && table[l] == f ==> l == KeyOf(frames[f])
  {
  }

  lemma DropAlive(frames: seq<Frame>, free: seq<nat>, alive: map<nat, Status>, f: nat)
    requires FreeFrames(frames, free, alive) && Covered(|frames|, free, alive, {}) && f in alive
    ensures FreeFrames(frames, free, alive - {f}) && Covered(|frames|, free, alive - {f}, {f})
  {
  }

  lemma EvictCap(a: Arc)
    ensures Evict(a).0.cap == a.cap
  {
  }

  /** Facts about the frame that eviction picks. */
  lemma Victim(p: Pool)
    requires Coupled(p) && Evict(p.arc).1.Some?
    ensures var (arc', v) := Evict(p.arc);
            && Inv(arc') && arc'.cap == p.arc.cap && arc'.alive == p.arc.alive - {v.value}
            && v.value in p.arc.alive && v.value < |p.frames| && p.frames[v.value].pins == 0
            && KeyOf(p.frames[v.value]) in p.table && p.table[KeyOf(p.frames[v.value])] == v.value
            && KeyOf(p.frames[v.value]) in p.disk && p.frames[v.value].page < INVALID_PAGE_ID
  {
    hide Inv, Evict;
    EvictKeeps(p.arc);
    EvictCap(p.arc);
    LiveFact(p, Evict(p.arc).1.value);
    assert KeyOf(p.frames[Evict(p.arc).1.value]) in p.disk.Keys;
  }

  /** The pool after its victim `f` has given up what it held. */
  lemma EvictDetaches(p: Pool)
    requires Coupled(p) && p.free == [] && Evict(p.arc).1.Some?
    ensures var (arc', v) := Evict(p.arc);
            && v.value < |p.frames| && p.frames[v.value].page != INVALID_PAGE_ID
            && Acquire(p) == (p.(arc := arc', table := p.table - {KeyOf(p.frames[v.value])},
                                 disk := if p.frames[v.value].dirty
                                         then p.disk[KeyOf(p.frames[v.value]) := p.frames[v.value].data] else p.disk),
                              v)
  {
    hide Inv, Evict, CoupledBut;
    Victim(p);
  }

  lemma EvictFrame(p: Pool)
    requires Coupled(p) && p.free == [] && Evict(p.arc).1.Some?
    ensures var f := Evict(p.arc).1.value;
            && Acquire(p).1 == Some(f)
            && Acquired(p, Acquire(p).0, f)
            && f in p.arc.alive && f < |p.frames| && p.frames[f].page != INVALID_PAGE_ID
            && Acquire(p).0.disk == (if p.frames[f].dirty then p.disk[KeyOf(p.frames[f]) := p.frames[f].data] else p.disk)
  {
    hide Inv, Evict, Evicted, Acquire, TableFrames, LiveFrames, FreeFrames, Covered;
    EvictDetaches(p);
    Victim(p);
    EvictChooses(p.arc);
    var f, q := Evict(p.arc).1.value, Acquire(p).0;
    DropFrame(p.frames, p.table, p.arc.alive, f);
    DropAlive(p.frames, p.free, p.arc.alive, f);
    assert q.disk.Keys == p.disk.Keys && q.table.Keys <= p.table.Keys;
  }

  lemma NothingToEvict(p: Pool)
    requires Coupled(p) && p.free == []
    ensures Evict(p.arc).1.None? <==> AllFramesPinned(p)
  {
    EvictChooses(p.arc);
    hide Evict, Inv;
  }

  /** Acquiring a frame fails exactly if every frame is pinned. Otherwise the
      frame was unpinned and is now held by nobody. */
  lemma AcquireKeeps(p: Pool)
    requires Coupled(p)
    ensures Acquire(p).1.None? <==> AllFramesPinned(p)
    ensures Acquire(p).1.None? ==> Acquire(p).0 == p && VictimKeys(p) == {}
    ensures Acquire(p).1.Some? ==> Acquired(p, Acquire(p).0, Acquire(p).1.value)
  {
    if p.free != [] {
      PopFree(p);
      hide Coupled;
      assert Acquired(p, Acquire(p).0, p.free[0]);
    } else {
      NothingToEvict(p);
      if Evict(p.arc).1.Some? {
        EvictFrame(p);
      }
      hide Coupled, Evict;
    }
  }

  /** Taking a frame off the free list changes nothing that is shown or saved. */
  lemma PopShown(p: Pool, writers: set<nat>)
    requires Good(p, writers) && p.free != []
    ensures SameShown(p, Acquire(p).0) && Synced(Acquire(p).0, writers) && WritersPinned(Acquire(p).0, writers)
    ensures p.free[0] !in writers && Acquire(p).0.disk == WithSaved(p, VictimKeys(p))
  {
    PopFree(p);
    NothingSaved(p);
    assert p.free[0] in p.free;
    hide CoupledBut, Acquire;
  }

  /** Writing the victim back before dropping it leaves what the cache shows
      unchanged. */
  lemma EvictShown(p: Pool, writers: set<nat>)
    requires Good(p, writers) && p.free == [] && Evict(p.arc).1.Some?
    ensures SameShown(p, Acquire(p).0) && Acquire(p).0.disk == WithSaved(p, VictimKeys(p))
  {
    hide CoupledBut, Evict;
    EvictFrame(p);
    TableHolds(p, Evict(p.arc).1.value);
    OnlyHolder(p, Evict(p.arc).1.value);
    hide Acquire;
  }

  lemma EvictSynced(p: Pool, writers: set<nat>)
    requires Good(p, writers) && p.free == [] && Evict(p.arc).1.Some?
    ensures Synced(Acquire(p).0, writers) && WritersPinned(Acquire(p).0, writers)
    ensures Evict(p.arc).1.value !in writers
  {
    hide CoupledBut, Evict;
    EvictFrame(p);
    OnlyHolder(p, Evict(p.arc).1.value);
    hide Acquire;
  }

  lemma AcquireShown(p: Pool, writers: set<nat>)
    requires Good(p, writers) && Acquire(p).1.Some?
    ensures SameShown(p, Acquire(p).0) && Synced(Acquire(p).0, writers) && WritersPinned(Acquire(p).0, writers)
    ensures Acquire(p).1.value !in writers
    ensures Acquire(p).0.disk == WithSaved(p, VictimKeys(p))
  {
    hide CoupledBut, Evict, Synced, WritersPinned, SameShown, WithSaved, VictimKeys, Detach;
    if p.free != [] {
      PopShown(p, writers);
    } else {
      EvictShown(p, writers);
      EvictSynced(p, writers);
    }
  }

  // ---------------------------------------------------------------- pinning

  /** Effect of a pin on the replacer's table: frame `f` is live, holds `page`
      and cannot be evicted; nothing else changes. */
  ghost predicate PinnedLive(alive: map<nat, Status>, alive': map<nat, Status>, f: nat, page: nat) {
    && alive'.Keys == alive.Keys + {f}
    && alive'[f].page == page && !alive'[f].evictable
    && forall g :: g in alive && g != f ==> alive'[g].page == alive[g].page && alive'[g].evictable == alive[g].evictable
  }

  lemma PinnedKeeps(a: Arc, f: nat, page: nat)
    requires Inv(a) && LegalAccess(a, f, page)
    ensures Inv(Pinned(a, f, page)) && Pinned(a, f, page).cap == a.cap
    ensures PinnedLive(a.alive, Pinned(a, f, page).alive, f, page)
  {
    hide Inv, RecordAccess, SetEvictable, LegalAccess;
    RecordAccessKeeps(a, f, page);
    SetEvictableKeeps(RecordAccess(a, f, page), f, false);
  }

  /** A page that is not resident is in no live frame. */
  lemma NotLive(p: Pool, k: Key, hole: set<nat>)
    requires CoupledBut(p, hole) && k in p.disk && k !in p.table
    ensures forall g :: g in p.arc.alive ==> p.arc.alive[g].page != k.page
  {
    hide Inv;
    forall g | g in p.arc.alive
      ensures p.arc.alive[g].page != k.page
    {
      LiveFact(p, g);
      assert KeyOf(p.frames[g]) in p.disk.Keys;
    }
  }

  /** A page that is not resident may enter a frame that nobody holds. */
  lemma EntryIsLegal(q: Pool, f: nat, k: Key)
    requires CoupledBut(q, {f}) && f < |q.frames| && k in q.disk && k !in q.table
    ensures Inv(q.arc) && LegalAccess(q.arc, f, k.page)
  {
    hide Inv;
    NotLive(q, k, {f});
  }

  lemma CoupledInv(p: Pool)
    requires Coupled(p)
    ensures Inv(p.arc)
  {
    hide Inv;
  }

  /** So may a page that is new. */
  lemma FreshIsLegal(q: Pool, f: nat, k: Key)
    requires CoupledBut(q, {f}) && f < |q.frames| && k.page == q.next
    ensures Inv(q.arc) && LegalAccess(q.arc, f, k.page)
  {
    hide Inv;
    forall g | g in q.arc.alive
      ensures q.arc.alive[g].page != k.page
    {
      LiveFact(q, g);
      assert KeyOf(q.frames[g]) in q.disk.Keys;
    }
  }

  lemma InstallFrames(frames: seq<Frame>, table: map<Key, nat>, alive: map<nat, Status>, alive': map<nat, Status>,
                      f: nat, k: Key, fr: Frame)
    requires TableFrames(frames, table, alive) && LiveFrames(frames, table, alive)
    requires f < |frames| && f !in alive && k !in table && KeyOf(fr) == k && fr.pins > 0
    requires PinnedLive(alive, alive', f, k.page)
    ensures TableFrames(frames[f := fr], table[k := f], alive')
    ensures LiveFrames(frames[f := fr], table[k := f], alive')
  {
  }

  lemma InstallFree(frames: seq<Frame>, free: seq<nat>, alive: map<nat, Status>, alive': map<nat, Status>, f: nat, fr: Frame)
    requires FreeFrames(frames, free, alive) && Covered(|frames|, free, alive, {f}) && f < |frames|
    requires alive'.Keys == alive.Keys + {f}
    ensures FreeFrames(frames[f := fr], free, alive') && Covered(|frames|, free, alive', {})
  {
  }

  /** Installing a page in a frame nobody holds restores the coupling. */
  lemma InstallCoupled(q: Pool, f: nat, k: Key, data: PageBytes)
    requires CoupledBut(q, {f}) && f < |q.frames|
    requires k in q.disk && k !in q.table
    ensures Coupled(Install(q, f, k, data))
    ensures PinnedLive(q.arc.alive, Install(q, f, k, data).arc.alive, f, k.page)
    ensures f !in q.arc.alive && forall l :: l in q.table ==> q.table[l] < |q.frames| && q.table[l] != f
    ensures forall g :: g in q.arc.alive ==> KeyOf(q.frames[g]) != k
  {
    hide Inv, Pinned, FreeFrames;
    NotLive(q, k, {f});
    PinnedKeeps(q.arc, f, k.page);
    assert forall l :: l in q.table ==> q.table[l] in q.arc.alive;
    assert forall g :: g in q.arc.alive ==> KeyOf(q.frames[g]) in q.table;
    var r := Install(q, f, k, data);
    InstallFrames(q.frames, q.table, q.arc.alive, r.arc.alive, f, k, r.frames[f]);
    InstallFree(q.frames, q.free, q.arc.alive, r.arc.alive, f, r.frames[f]);
    assert k in q.disk.Keys;
    hide TableFrames, LiveFrames, Covered;
  }

  lemma InstallKeeps(q: Pool, f: nat, k: Key, data: PageBytes, writers: set<nat>)
    requires CoupledBut(q, {f}) && f < |q.frames|
    requires k in q.disk && k !in q.table
    requires Synced(q, writers) && WritersPinned(q, writers)
    ensures Coupled(Install(q, f, k, data)) && WritersPinned(Install(q, f, k, data), writers)
    ensures q.disk[k] == data ==> Synced(Install(q, f, k, data), writers)
    ensures forall l :: l in q.disk ==> Shown(Install(q, f, k, data), l) == if l == k then data else Shown(q, l)
  {
    hide Inv, Pinned, CoupledBut;
    InstallCoupled(q, f, k, data);
  }

  lemma RepinCoupled(p: Pool, k: Key)
    requires Coupled(p) && k in p.disk && k in p.table
    ensures Coupled(Fetch(p, k).0) && Fetch(p, k).0.arc.alive.Keys == p.arc.alive.Keys
  {
    hide Inv, Pinned, FreeFrames, Covered, TableFrames, LiveFrames, Allocated, LegalAccess;
    var f := p.table[k];
    OnlyFrame(p, k);
    PinnedKeeps(p.arc, f, k.page);
    var q := Fetch(p, k).0;
    LiveFact(p, f);
    LivePages(p);
    RepinFrames(p.frames, p.table, p.arc.alive, q.arc.alive, f, q.frames[f]);
    RepinFree(p.frames, p.free, p.arc.alive, q.arc.alive, f, q.frames[f]);
  }

  lemma LivePages(p: Pool)
    requires LiveFrames(p.frames, p.table, p.arc.alive)
    ensures forall f :: f in p.arc.alive ==> f < |p.frames| && p.arc.alive[f].page == p.frames[f].page
  {
  }

  /** Taking one more pin on a resident page. */
  lemma RepinKeeps(p: Pool, k: Key, writers: set<nat>)
    requires Good(p, writers) && k in p.disk && k in p.table
    ensures Good(Fetch(p, k).0, writers) && SameShown(p, Fetch(p, k).0)
  {
    hide CoupledBut, Pinned;
    OnlyFrame(p, k);
    RepinCoupled(p, k);
  }

  /** Only the frame of `k` holds a page with its id. */
  lemma OnlyFrame(p: Pool, k: Key)
    requires Coupled(p) && k in p.disk && k in p.table
    ensures p.table[k] in p.arc.alive && LegalAccess(p.arc, p.table[k], k.page)
    ensures p.table[k] < |p.frames| && KeyOf(p.frames[p.table[k]]) == k
  {
    var f := p.table[k];
    assert KeyOf(p.frames[f]) == k;
    forall g | g in p.arc.alive && p.arc.alive[g].page == k.page
      ensures g == f
    {
      LiveFact(p, g);
      assert KeyOf(p.frames[g]) in p.disk.Keys;
    }
  }

  /** Changing pins and dirtiness of one live frame, along with its evictability,
      keeps table and replacer in step. */
  lemma RepinFrames(frames: seq<Frame>, table: map<Key, nat>, alive: map<nat, Status>, alive': map<nat, Status>,
                    f: nat, fr: Frame)
    requires TableFrames(frames, table, alive) && LiveFrames(frames, table, alive)
    requires f in alive && f < |frames| && KeyOf(fr) == KeyOf(frames[f])
    requires alive'.Keys == alive.Keys
    requires forall g :: g in alive ==> alive'[g].page == alive[g].page
    requires forall g :: g in alive && g != f ==> alive'[g].evictable == alive[g].evictable
    requires alive'[f].evictable <==> fr.pins == 0
    ensures TableFrames(frames[f := fr], table, alive') && LiveFrames(frames[f := fr], table, alive')
  {
  }

  lemma RepinFree(frames: seq<Frame>, free: seq<nat>, alive: map<nat, Status>, alive': map<nat, Status>, f: nat, fr: Frame)
    requires FreeFrames(frames, free, alive) && f in alive && f < |frames| && alive'.Keys == alive.Keys
    ensures FreeFrames(frames[f := fr], free, alive')
    ensures forall hole :: Covered(|frames|, free, alive, hole) ==> Covered(|frames|, free, alive', hole)
  {
  }

  // ---------------------------------------------------------------- the pool's operations

  /** What a fetch of `k` does: it fails exactly if the page is not resident and
      every frame is pinned; it never changes what the cache shows; and the frame
      it returns holds the page, pinned once more. */
  ghost predicate Fetched(p: Pool, k: Key, q: Pool, v: Option<nat>) {
    && SameShown(p, q) && q.disk.Keys == p.disk.Keys && q.next == p.next
    && q.disk == WithSaved(p, if k in p.table then {} else VictimKeys(p))
    && (v.None? <==> k !in p.table && AllFramesPinned(p))
    && (v.None? ==> q == p)
    && (v.Some? ==> && v.value < |q.frames| && SameFramesBut(p, q, v.value)
                    && KeyOf(q.frames[v.value]) == k && k in q.table && q.table[k] == v.value
                    && q.frames[v.value].data == Shown(p, k)
                    && q.frames[v.value].pins == p.frames[v.value].pins + 1
                    && (p.frames[v.value].pins > 0 ==> KeyOf(p.frames[v.value]) == k)
                    && q.frames[v.value].dirty == (k in p.table && p.frames[v.value].dirty)
                    && Used(p, k, v.value, q))
  }

  /** Which frame a fetch uses, and that it counts as an access: a hit makes the
      page's own frame the most recent, a miss brings the page into the frame
      found. */
  ghost predicate Used(p: Pool, k: Key, f: nat, q: Pool) {
    if k in p.table then p.table[k] == f && q.free == p.free && Touched(p.arc, f, k.page, q.arc)
    else Entered(p, f, k.page, q)
  }

  /** Pinning a frame counts as an access. */
  lemma PinnedTouches(a: Arc, f: nat, page: nat)
    requires Inv(a) && LegalAccess(a, f, page)
    ensures Touched(a, f, page, Pinned(a, f, page))
  {
    hide Inv, LegalAccess, RecordAccess, SetEvictable, GhostsAfter, TargetMoved;
    RecordAccessKeeps(a, f, page);
    AccessPlaces(a, f, page);
    var b := RecordAccess(a, f, page);
    SetEvictableKeeps(b, f, false);
    TouchedSame(a, f, page, b, Pinned(a, f, page));
  }

  lemma TouchedSame(a: Arc, f: nat, page: nat, b: Arc, c: Arc)
    requires Touched(a, f, page, b) && SameLists(b, c)
    ensures Touched(a, f, page, c)
  {
  }

  lemma EnteredSame(p: Pool, f: nat, page: nat, q: Pool, r: Pool)
    requires Entered(p, f, page, q) && r.arc == q.arc && r.free == q.free
    ensures Entered(p, f, page, r)
  {
    hide Found, Touched;
    var arc :| Found(p, f, arc, q.free) && Touched(arc, f, page, q.arc);
    assert Found(p, f, arc, r.free) && Touched(arc, f, page, r.arc);
  }

  lemma HitUses(p: Pool, k: Key)
    requires Coupled(p) && k in p.disk && k in p.table
    ensures Used(p, k, p.table[k], Fetch(p, k).0)
  {
    hide Inv, LegalAccess, Pinned, Touched;
    OnlyFrame(p, k);
    CoupledInv(p);
    PinnedTouches(p.arc, p.table[k], k.page);
    hide Coupled;
  }

  /** Installing a page in the frame found brings it into the replacer. */
  lemma InstallEnters(p: Pool, q: Pool, f: nat, k: Key, data: PageBytes)
    requires Acquired(p, q, f) && (k in q.disk || k.page == q.next) && k !in q.table
    ensures Entered(p, f, k.page, Install(q, f, k, data))
  {
    hide CoupledBut, LegalAccess, Pinned, Touched, Found, Inv;
    if k in q.disk {
      EntryIsLegal(q, f, k);
    } else {
      FreshIsLegal(q, f, k);
    }
    PinnedTouches(q.arc, f, k.page);
    var r := Install(q, f, k, data);
    assert Found(p, f, q.arc, r.free) && Touched(q.arc, f, k.page, r.arc);
  }

  lemma FetchHit(p: Pool, k: Key, writers: set<nat>)
    requires Good(p, writers) && k in p.disk && k in p.table
    ensures Fetched(p, k, Fetch(p, k).0, Fetch(p, k).1) && Good(Fetch(p, k).0, writers)
  {
    hide CoupledBut, Synced, Pinned, WritersPinned, SameShown, Used, LegalAccess;
    OnlyFrame(p, k);
    RepinKeeps(p, k, writers);
    HitUses(p, k);
    NothingSaved(p);
  }

  lemma NothingSaved(p: Pool)
    ensures WithSaved(p, {}) == p.disk
  {
  }

  lemma FetchMiss(p: Pool, k: Key, writers: set<nat>)
    requires Good(p, writers) && k in p.disk && k !in p.table
    ensures Fetched(p, k, Fetch(p, k).0, Fetch(p, k).1) && Good(Fetch(p, k).0, writers)
  {
    hide CoupledBut, Synced, WritersPinned, Acquire, Pinned, Inv, Entered, Found;
    AcquireKeeps(p);
    if Acquire(p).1.Some? {
      AcquireShown(p, writers);
      var q, f := Acquire(p).0, Acquire(p).1.value;
      InstallKeeps(q, f, k, q.disk[k], writers);
      InstallEnters(p, q, f, k, q.disk[k]);
      assert Shown(q, k) == q.disk[k] == Shown(p, k);
    }
    NothingSaved(p);
  }

  lemma FetchKeeps(p: Pool, k: Key, writers: set<nat>)
    requires Good(p, writers) && k in p.disk
    ensures Fetched(p, k, Fetch(p, k).0, Fetch(p, k).1) && Good(Fetch(p, k).0, writers)
  {
    if k in p.table { FetchHit(p, k, writers); } else { FetchMiss(p, k, writers); }
  }

  /** What allocating a page does: it fails exactly if every frame is pinned, and
      otherwise adds one zeroed page under a fresh id and changes nothing else
      that the cache shows. */
  ghost predicate Created(p: Pool, file: nat, q: Pool, v: Option<(nat, nat)>) {
    && SameShown(p, q)
    && (v.None? <==> AllFramesPinned(p))
    && (v.None? ==> q == p)
    && (v.Some? ==> var (f, id) := v.value;
          && id == p.next && q.next == p.next + 1
          && Key(file, id) !in p.disk && q.disk.Keys == p.disk.Keys + {Key(file, id)}
          && q.disk == WithSaved(p, VictimKeys(p))[Key(file, id) := ZeroPage()]
          && Shown(q, Key(file, id)) == ZeroPage()
          && f < |q.frames| && SameFramesBut(p, q, f) && p.frames[f].pins == 0
          && q.frames[f] == Frame(file, id, 1, false, ZeroPage())
          && Key(file, id) in q.table && q.table[Key(file, id)] == f
          && Entered(p, f, id, q))
  }

  /** Reserving a fresh page on disk disturbs nothing. */
  lemma ReserveKeeps(q: Pool, file: nat, f: nat, writers: set<nat>)
    requires CoupledBut(q, {f}) && Synced(q, writers) && WritersPinned(q, writers) && q.next < INVALID_PAGE_ID
    ensures var k := Key(file, q.next);
            var r := q.(next := q.next + 1, disk := q.disk[k := ZeroPage()]);
            && k !in q.disk && k !in q.table
            && CoupledBut(r, {f}) && Synced(r, writers) && WritersPinned(r, writers)
            && forall l :: l in q.disk ==> Shown(r, l) == Shown(q, l)
  {
    hide Inv, TableFrames, FreeFrames, Covered;
    var k := Key(file, q.next);
    assert k !in q.disk.Keys && k !in q.table.Keys;
    forall g | g in q.arc.alive
      ensures KeyOf(q.frames[g]) in q.disk.Keys
    {
      LiveFact(q, g);
    }
    hide LiveFrames;
  }

  lemma NewPageKeeps(p: Pool, file: nat, writers: set<nat>)
    requires Good(p, writers) && p.next < INVALID_PAGE_ID
    ensures Created(p, file, NewPage(p, file).0, NewPage(p, file).1) && Good(NewPage(p, file).0, writers)
  {
    hide CoupledBut, Synced, WritersPinned, Acquire, Pinned, Inv, Entered, Found;
    AcquireKeeps(p);
    if Acquire(p).1.Some? {
      AcquireShown(p, writers);
      var q, f := Acquire(p).0, Acquire(p).1.value;
      var k := Key(file, q.next);
      ReserveKeeps(q, file, f, writers);
      InstallEnters(p, q, f, k, ZeroPage());
      EnteredSame(p, f, k.page, Install(q, f, k, ZeroPage()), NewPage(p, file).0);
      var r := q.(next := q.next + 1, disk := q.disk[k := ZeroPage()]);
      InstallKeeps(r, f, k, ZeroPage(), writers);
      assert NewPage(p, file).0 == Install(r, f, k, ZeroPage());
      assert r.disk.Keys == p.disk.Keys + {k};
    }
  }

  /** What dropping one pin of `k` does: it succeeds exactly if the page is
      resident and pinned, and changes neither disk nor contents. */
  ghost predicate Unpinned(p: Pool, k: Key, dirty: bool, q: Pool, ok: bool) {
    && SameShown(p, q) && q.disk == p.disk && q.next == p.next && q.table == p.table
    && (ok <==> k in p.table && p.table[k] < |p.frames| && p.frames[p.table[k]].pins > 0)
    && (!ok ==> q == p)
    && q.free == p.free && SameLists(p.arc, q.arc)
    && (ok ==> var f := p.table[k];
          && SameFramesBut(p, q, f)
          && q.frames[f] == p.frames[f].(pins := p.frames[f].pins - 1, dirty := p.frames[f].dirty || dirty))
  }

  lemma UnpinCoupled(p: Pool, k: Key, dirty: bool)
    requires Coupled(p)
    ensures Coupled(Unpin(p, k, dirty).0)
    ensures Unpinned(p, k, dirty, Unpin(p, k, dirty).0, Unpin(p, k, dirty).1)
    ensures Unpin(p, k, dirty).0.arc.alive.Keys == p.arc.alive.Keys
  {
    hide Inv, SetEvictable, FreeFrames, Covered, Allocated, TableFrames, LiveFrames;
    var (q, ok) := Unpin(p, k, dirty);
    if ok {
      var f := p.table[k];
      TableFact(p, k);
      LiveFact(p, f);
      SetEvictableKeeps(p.arc, f, true);
      RepinFrames(p.frames, p.table, p.arc.alive, q.arc.alive, f, q.frames[f]);
      RepinFree(p.frames, p.free, p.arc.alive, q.arc.alive, f, q.frames[f]);
    }
  }

  /** Dropping a pin keeps the pool good for the remaining writers, provided that
      a writer that leaves marks the frame dirty. */
  lemma UnpinKeeps(p: Pool, k: Key, dirty: bool, writers: set<nat>, writers': set<nat>)
    requires Good(p, writers) && writers' <= writers
    requires k in p.table && p.table[k] < |p.frames| && p.frames[p.table[k]].pins > 0
    requires forall g :: g in writers && g !in writers' ==> g == p.table[k] && dirty
    requires p.frames[p.table[k]].pins == 1 ==> p.table[k] !in writers'
    ensures Good(Unpin(p, k, dirty).0, writers')
    ensures Unpinned(p, k, dirty, Unpin(p, k, dirty).0, Unpin(p, k, dirty).1)
  {
    hide Inv, SetEvictable, CoupledBut;
    UnpinCoupled(p, k, dirty);
  }

  // ---------------------------------------------------------------- writing back

  /** A live frame is written back to a page that only it holds. */
  lemma OnlyHolder(p: Pool, f: nat)
    requires Coupled(p) && f in p.arc.alive
    ensures f < |p.frames| && KeyOf(p.frames[f]) in p.disk
    ensures forall g :: g in p.arc.alive && g != f ==> g < |p.frames| && KeyOf(p.frames[g]) != KeyOf(p.frames[f])
    ensures forall k :: k in p.table ==> p.table[k] < |p.frames| && (p.table[k] == f <==> k == KeyOf(p.frames[f]))
  {
    hide Inv, FreeFrames, Covered;
    LiveFact(p, f);
    assert KeyOf(p.frames[f]) in p.disk.Keys;
    forall g | g in p.arc.alive && g != f
      ensures g < |p.frames| && KeyOf(p.frames[g]) != KeyOf(p.frames[f])
    {
      LiveFact(p, g);
    }
    forall k | k in p.table
      ensures p.table[k] < |p.frames| && (p.table[k] == f <==> k == KeyOf(p.frames[f]))
    {
      TableFact(p, k);
    }
    hide TableFrames, LiveFrames;
  }

  /** What writing frame `f` back does. */
  ghost predicate WrittenBack(p: Pool, f: nat, q: Pool) {
    && SameShown(p, q) && SameFramesBut(p, q, f)
    && f < |p.frames| && q.frames[f] == p.frames[f].(dirty := false)
    && q.disk.Keys == p.disk.Keys && q.next == p.next && q.table == p.table && q.arc == p.arc && q.free == p.free
    && KeyOf(p.frames[f]) in p.disk && q.disk == WithSaved(p, {KeyOf(p.frames[f])})
    && q.disk[KeyOf(p.frames[f])] == p.frames[f].data
  }

  lemma WriteBackShown(p: Pool, f: nat)
    requires Coupled(p) && f in p.arc.alive && f < |p.frames|
    ensures WrittenBack(p, f, WriteBack(p, f))
  {
    hide CoupledBut;
    OnlyHolder(p, f);
    TableHolds(p, f);
  }

  lemma TableHolds(p: Pool, f: nat)
    requires Coupled(p) && f in p.arc.alive
    ensures f < |p.frames| && KeyOf(p.frames[f]) in p.table && p.table[KeyOf(p.frames[f])] == f
  {
    LiveFact(p, f);
  }

  lemma WriteBackCoupled(p: Pool, f: nat)
    requires Coupled(p) && f in p.arc.alive && f < |p.frames|
    ensures Coupled(WriteBack(p, f))
  {
    hide Inv, FreeFrames, Covered;
    var q := WriteBack(p, f);
    OnlyHolder(p, f);
    RepinFrames(p.frames, p.table, p.arc.alive, p.arc.alive, f, q.frames[f]) by {
      LiveFact(p, f);
    }
    RepinFree(p.frames, p.free, p.arc.alive, p.arc.alive, f, q.frames[f]);
    assert q.disk.Keys == p.disk.Keys;
    hide TableFrames, LiveFrames;
  }

  lemma WriteBackKeeps(p: Pool, f: nat, writers: set<nat>)
    requires Good(p, writers) && f in p.arc.alive && f < |p.frames|
    ensures Good(WriteBack(p, f), writers) && WrittenBack(p, f, WriteBack(p, f))
  {
    hide CoupledBut, WrittenBack;
    OnlyHolder(p, f);
    WriteBackShown(p, f);
    WriteBackCoupled(p, f);
  }

  /** What writing back the dirty pages among the first `n` frames does: exactly
      those pages are saved, and nothing shown changes. */
  ghost predicate Flushed(p: Pool, n: nat, q: Pool) {
    && SameShown(p, q)
    && q.disk.Keys == p.disk.Keys && q.next == p.next && q.table == p.table && q.arc == p.arc && q.free == p.free
    && q.disk == WithSaved(p, DirtyKeys(p, n))
    && |q.frames| == |p.frames|
    && forall g :: 0 <= g < |p.frames| ==> q.frames[g] == if g < n then p.frames[g].(dirty := false) else p.frames[g]
  }

  lemma NothingFlushed(p: Pool)
    ensures Flushed(p, 0, p)
  {
    NothingSaved(p);
    assert DirtyKeys(p, 0) == {};
  }

  /** The pages written back by one more frame. */
  lemma DirtyStep(p: Pool, n: nat)
    requires Coupled(p) && n < |p.frames|
    ensures DirtyKeys(p, n + 1) == DirtyKeys(p, n) + if p.frames[n].dirty then {KeyOf(p.frames[n])} else {}
  {
    hide CoupledBut;
    FrameFact(p, n);
    if n in p.arc.alive {
      TableHolds(p, n);
    }
    forall k | k in p.table
      ensures p.table[k] < |p.frames| && KeyOf(p.frames[p.table[k]]) == k
    {
      TableFact(p, k);
    }
  }

  lemma SavedMore(p: Pool, q: Pool, keys: set<Key>, k: Key)
    requires q.disk == WithSaved(p, keys) && SameShown(p, q)
    ensures WithSaved(q, {k}) == WithSaved(p, keys + {k})
  {
    hide Shown;
  }

  lemma FlushStep(p: Pool, n: nat, q: Pool, r: Pool)
    requires Coupled(p) && n < |p.frames| && Flushed(p, n, q)
    requires if p.frames[n].dirty then WrittenBack(q, n, r) else r == q
    ensures Flushed(p, n + 1, r)
  {
    hide Coupled, Shown, DirtyKeys, WithSaved;
    DirtyStep(p, n);
    if p.frames[n].dirty {
      SavedMore(p, q, DirtyKeys(p, n), KeyOf(p.frames[n]));
    } else {
      assert DirtyKeys(p, n) + {} == DirtyKeys(p, n);
    }
  }

  lemma {:induction false} FlushFirstKeeps(p: Pool, n: nat, writers: set<nat>)
    requires Good(p, writers) && n <= |p.frames|
    ensures Good(FlushFirst(p, n), writers) && Flushed(p, n, FlushFirst(p, n))
  {
    hide Good, Flushed;
    if n == 0 {
      NothingFlushed(p);
    } else {
      FlushFirstKeeps(p, n - 1, writers);
      var q := FlushFirst(p, n - 1);
      FlushOne(p, n - 1, q, writers);
    }
  }

  lemma FlushOne(p: Pool, n: nat, q: Pool, writers: set<nat>)
    requires Good(p, writers) && Good(q, writers) && n < |p.frames| == |q.frames| && Flushed(p, n, q)
    ensures var r := if q.frames[n].page != INVALID_PAGE_ID && q.frames[n].dirty then WriteBack(q, n) else q;
            Good(r, writers) && Flushed(p, n + 1, r)
  {
    hide Coupled, Synced, WritersPinned, WrittenBack, WriteBack;
    FrameFact(q, n);
    if q.frames[n].dirty {
      WriteBackKeeps(q, n, writers);
      FlushStep(p, n, q, WriteBack(q, n));
    } else {
      FlushStep(p, n, q, q);
    }
    hide Flushed;
  }

  /** A frame holds a page exactly if it is live, and only then can it be dirty. */
  lemma FrameFact(p: Pool, f: nat)
    requires Coupled(p) && f < |p.frames|
    ensures f in p.arc.alive <==> p.frames[f].page != INVALID_PAGE_ID
    ensures p.frames[f].dirty ==> f in p.arc.alive
  {
    hide Inv;
    if f in p.arc.alive {
      LiveFact(p, f);
      assert KeyOf(p.frames[f]) in p.disk.Keys;
    }
  }

  // ---------------------------------------------------------------- deleting, writing

  /** What deleting `k` does: it is refused exactly if the page is pinned,
      touches no other page, and makes its own page show what the disk holds. */
  ghost predicate Deleted(p: Pool, k: Key, q: Pool, ok: bool) {
    && q.disk == p.disk && q.next == p.next
    && (ok <==> !(k in p.table && p.table[k] < |p.frames| && p.frames[p.table[k]].pins > 0))
    && (!ok ==> q == p)
    && (ok ==> q.table == p.table - {k})
    && (ok && k !in p.table ==> q == p)
    && (ok && k in p.table ==> var f := p.table[k];
          && f < |p.frames| && q.frames == p.frames[f := Frame(0, INVALID_PAGE_ID, 0, false, ZeroPage())]
          && q.free == p.free + [f] && Forgotten(p.arc, f, q.arc))
    && (forall l :: l in p.disk && l != k ==> Shown(q, l) == Shown(p, l))
    && (ok && k in p.disk ==> Shown(q, k) == p.disk[k])
    && |q.frames| == |p.frames|
    && (forall g :: 0 <= g < |p.frames| ==> q.frames[g] == p.frames[g] || p.frames[g].pins == q.frames[g].pins == 0)
  }

  lemma DeleteCoupled(p: Pool, k: Key)
    requires Coupled(p) && k in p.table && p.frames[p.table[k]].pins == 0
    ensures DeletePage(p, k).Some? && DeletePage(p, k).value.1
    ensures var q := DeletePage(p, k).value.0;
            && Coupled(q) && Forgotten(p.arc, p.table[k], q.arc) && q.free == p.free + [p.table[k]]
            && q.frames == p.frames[p.table[k] := Frame(0, INVALID_PAGE_ID, 0, false, ZeroPage())]
            && q.table == p.table - {k}
    ensures forall l :: l in p.table && l != k ==> p.table[l] != p.table[k]
  {
    hide Inv, Remove, FreeFrames, Covered;
    var f := p.table[k];
    LiveFact(p, f);
    RemoveKeeps(p.arc, f);
    DropFrame(p.frames, p.table, p.arc.alive, f);
    DeletedFrames(p.frames, p.table - {k}, p.arc.alive - {f}, f);
    DeletedFree(p.frames, p.free, p.arc.alive, f);
    assert (p.table - {k}).Keys <= p.table.Keys;
    hide TableFrames, LiveFrames;
  }

  lemma TableFact(p: Pool, k: Key)
    requires Coupled(p) && k in p.table
    ensures p.table[k] < |p.frames| && p.table[k] in p.arc.alive && KeyOf(p.frames[p.table[k]]) == k
  {
  }

  lemma DeleteDone(p: Pool, k: Key, writers: set<nat>)
    requires Good(p, writers) && k in p.table && p.table[k] < |p.frames| && p.frames[p.table[k]].pins == 0
    ensures DeletePage(p, k).Some? && DeletePage(p, k).value.1
    ensures Deleted(p, k, DeletePage(p, k).value.0, true) && Good(DeletePage(p, k).value.0, writers)
  {
    hide CoupledBut, Remove, SameLists;
    DeleteCoupled(p, k);
    TableFact(p, k);
    assert p.disk == DeletePage(p, k).value.0.disk && p.next == DeletePage(p, k).value.0.next;
    hide DeletePage;
  }

  /** Deleting a page keeps the pool good and never makes the replacer terminate. */
  lemma DeleteKeeps(p: Pool, k: Key, writers: set<nat>)
    requires Good(p, writers)
    ensures DeletePage(p, k).Some?
    ensures Deleted(p, k, DeletePage(p, k).value.0, DeletePage(p, k).value.1)
    ensures Good(DeletePage(p, k).value.0, writers)
  {
    hide CoupledBut, Synced, WritersPinned, Remove;
    if k in p.table {
      TableFact(p, k);
      if p.frames[p.table[k]].pins == 0 {
        DeleteDone(p, k, writers);
        hide DeletePage;
      }
    } else {
      assert p.table - {k} == p.table;
    }
  }

  /** Deleting a page changes what is shown exactly if it drops unsaved bytes. */
  lemma DeleteShows(p: Pool, k: Key, writers: set<nat>)
    requires Good(p, writers)
    ensures DeletePage(p, k).Some?
    ensures forall l :: l in p.disk ==>
              Shown(DeletePage(p, k).value.0, l) == if l == k && DropsUnsaved(p, k) then p.disk[k] else Shown(p, l)
    ensures DropsUnsaved(p, k) ==> Shown(p, k) != p.disk[k]
    ensures Deletable(p, k) && k in p.disk && !DropsUnsaved(p, k) ==> Shown(p, k) == p.disk[k]
    ensures k in p.disk && k !in p.table ==> Shown(p, k) == p.disk[k]
  {
    hide CoupledBut, DeletePage;
    DeleteKeeps(p, k, writers);
    if k in p.table {
      TableFact(p, k);
    }
  }

  /** Whatever a page holds, deleting it keeps what it shows exactly if the page
      is pinned or clean. */
  lemma DeleteKeepsShownIff(p: Pool, k: Key, writers: set<nat>)
    requires Good(p, writers) && k in p.disk && k in p.table
    ensures p.table[k] < |p.frames|
    ensures var f := p.table[k];
            (forall data: PageBytes :: Good(Write(p, f, data), writers) ==>
               DeletePage(Write(p, f, data), k).Some? && Shown(DeletePage(Write(p, f, data), k).value.0, k) == data) <==>
            p.frames[f].pins > 0 || !p.frames[f].dirty
  {
    hide CoupledBut, DeletePage;
    TableFact(p, k);
    var f := p.table[k];
    forall data: PageBytes | Good(Write(p, f, data), writers)
      ensures DeletePage(Write(p, f, data), k).Some?
      ensures p.frames[f].pins > 0 || !p.frames[f].dirty ==> Shown(DeletePage(Write(p, f, data), k).value.0, k) == data
      ensures p.frames[f].pins == 0 ==> Shown(DeletePage(Write(p, f, data), k).value.0, k) == p.disk[k]
    {
      DeleteKeeps(Write(p, f, data), k, writers);
    }
    if p.frames[f].pins == 0 && p.frames[f].dirty {
      var data := p.disk[k][0 := if p.disk[k][0] == 0 then 1 else 0];
      RewriteDirty(p, k, data, writers);
      assert data[0] != p.disk[k][0];
    }
  }

  /** A dirty frame may hold anything. */
  lemma RewriteDirty(p: Pool, k: Key, data: PageBytes, writers: set<nat>)
    requires Good(p, writers) && k in p.table && p.table[k] < |p.frames| && p.frames[p.table[k]].dirty
    ensures Good(Write(p, p.table[k], data), writers)
  {
    hide Inv, FreeFrames, Covered, Allocated;
    var f := p.table[k];
    LiveFact(p, f);
    var q := Write(p, f, data);
    RepinFrames(p.frames, p.table, p.arc.alive, p.arc.alive, f, q.frames[f]);
    RepinFree(p.frames, p.free, p.arc.alive, p.arc.alive, f, q.frames[f]);
    hide TableFrames, LiveFrames;
  }

  lemma DeletedFrames(frames: seq<Frame>, table: map<Key, nat>, alive: map<nat, Status>, f: nat)
    requires TableFrames(frames, table, alive) && LiveFrames(frames, table, alive) && f < |frames| && f !in alive
    ensures var frames' := frames[f := Frame(0, INVALID_PAGE_ID, 0, false, ZeroPage())];
            TableFrames(frames', table, alive) && LiveFrames(frames', table, alive)
  {
  }

  lemma DeletedFree(frames: seq<Frame>, free: seq<nat>, alive: map<nat, Status>, f: nat)
    requires FreeFrames(frames, free, alive) && Covered(|frames|, free, alive, {}) && f in alive && f < |frames|
    ensures FreeFrames(frames[f := Frame(0, INVALID_PAGE_ID, 0, false, ZeroPage())], free + [f], alive - {f})
    ensures Covered(|frames|, free + [f], alive - {f}, {})
  {
    AppendNoDup(free, [f]);
  }

  /** A writer's change to its frame is exactly a change of its own page. */
  lemma WriteKeeps(p: Pool, f: nat, data: PageBytes, writers: set<nat>)
    requires Good(p, writers) && f in writers
    ensures f < |p.frames| && Good(Write(p, f, data), writers)
    ensures SameFramesBut(p, Write(p, f, data), f) && Write(p, f, data).frames[f] == p.frames[f].(data := data)
    ensures KeyOf(p.frames[f]) in p.disk
    ensures forall l :: l in p.disk ==> Shown(Write(p, f, data), l) == if l == KeyOf(p.frames[f]) then data else Shown(p, l)
  {
    hide Inv, FreeFrames, Covered;
    LiveFact(p, f);
    assert KeyOf(p.frames[f]) in p.disk.Keys;
    var q := Write(p, f, data);
    RepinFrames(p.frames, p.table, p.arc.alive, p.arc.alive, f, q.frames[f]);
    RepinFree(p.frames, p.free, p.arc.alive, p.arc.alive, f, q.frames[f]);
    assert forall l :: l in p.table && l != KeyOf(p.frames[f]) ==> p.table[l] < |p.frames| && p.table[l] != f;
    hide TableFrames, LiveFrames;
  }

  /** A pinned frame is live. */
  lemma PinnedIsLive(p: Pool, f: nat)
    requires Coupled(p) && f < |p.frames| && p.frames[f].pins > 0
    ensures f in p.arc.alive && KeyOf(p.frames[f]) in p.table && p.table[KeyOf(p.frames[f])] == f
    ensures KeyOf(p.frames[f]) in p.disk && p.frames[f].page != INVALID_PAGE_ID
  {
    hide Inv;
    assert f !in p.free;
    LiveFact(p, f);
    assert KeyOf(p.frames[f]) in p.disk.Keys;
  }

  lemma GoodMore(p: Pool, writers: set<nat>, f: nat)
    requires Good(p, writers) && f < |p.frames| && p.frames[f].pins > 0
    ensures Good(p, writers + {f})
  {
    PinnedIsLive(p, f);
    hide CoupledBut;
  }
}
