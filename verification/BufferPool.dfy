/** The buffer pool on values: a write-back cache of pages over a disk, with pin
    counts, a free list and the adaptive replacer. */
module BufferPool {
  import opened Config
  import opened Bytes
  import opened PageLayout
  import opened ArcPolicy
  import opened ArcInvariant

  function ZeroPage(): PageBytes { seq(PAGE_SIZE, _ => 0) }

  datatype Key = Key(file: nat, page: nat)

  /** A frame with page id `INVALID_PAGE_ID` holds no page. */
  datatype Frame = Frame(file: nat, page: nat, pins: nat, dirty: bool, data: PageBytes)

  function KeyOf(fr: Frame): Key { Key(fr.file, fr.page) }

  datatype Pool = Pool(
    frames: seq<Frame>, table: map<Key, nat>, free: seq<nat>, arc: Arc,
    disk: map<Key, PageBytes>, next: nat)

  // ---------------------------------------------------------------- coupling of table, free list and replacer

  ghost predicate FreeFrames(frames: seq<Frame>, free: seq<nat>, alive: map<nat, Status>) {
    && NoDup(free)
    && forall f :: f in free ==>
         f < |frames| && f !in alive && frames[f].page == INVALID_PAGE_ID && frames[f].pins == 0 && !frames[f].dirty
  }

  /** The page table maps each key to the live frame that holds it. */
  ghost predicate TableFrames(frames: seq<Frame>, table: map<Key, nat>, alive: map<nat, Status>) {
    forall k :: k in table ==> table[k] < |frames| && table[k] in alive && KeyOf(frames[table[k]]) == k
  }

  /** The replacer's live frames are the table's image, and a frame can be evicted
      exactly if nobody has it pinned. */
  ghost predicate LiveFrames(frames: seq<Frame>, table: map<Key, nat>, alive: map<nat, Status>) {
    forall f :: f in alive ==>
      f < |frames| && KeyOf(frames[f]) in table && table[KeyOf(frames[f])] == f &&
      alive[f].page == frames[f].page && (alive[f].evictable <==> frames[f].pins == 0)
  }

  /** Every frame is free or live, except those in `hole`. */
  ghost predicate Covered(n: nat, free: seq<nat>, alive: map<nat, Status>, hole: set<nat>) {
    && (forall f: nat :: f < n ==> f in alive || f in free || f in hole)
    && (forall f :: f in hole ==> f !in alive && f !in free)
  }

  /** Allocated pages: ids below the counter, each in one file only. */
  ghost predicate Allocated(keys: set<Key>, resident: set<Key>, next: nat) {
    && resident <= keys
    && next <= INVALID_PAGE_ID
    && (forall k :: k in keys ==> k.page < next)
    && (forall k, l :: k in keys && l in keys && k.page == l.page ==> k == l)
  }

  ghost predicate CoupledBut(p: Pool, hole: set<nat>) {
    && Inv(p.arc) && p.arc.cap == |p.frames|
    && FreeFrames(p.frames, p.free, p.arc.alive)
    && TableFrames(p.frames, p.table, p.arc.alive)
    && LiveFrames(p.frames, p.table, p.arc.alive)
    && Covered(|p.frames|, p.free, p.arc.alive, hole)
    && Allocated(p.disk.Keys, p.table.Keys, p.next)
  }

  ghost predicate Coupled(p: Pool) {
    CoupledBut(p, {})
  }

  /** A pool of `n` frames, all free, over an empty disk. */
  function FreshPool(n: nat): Pool {
    Pool(seq(n, _ => Frame(0, INVALID_PAGE_ID, 0, false, ZeroPage())), map[], seq(n, i => i),
         ArcPolicy.Initial(n), map[], 0)
  }

  // ---------------------------------------------------------------- operations

  /** The pool after its evicted or free frame `f` has given up what it held. */
  function Detach(p: Pool, f: nat): Pool
    requires f < |p.frames|
  {
    var fr := p.frames[f];
    if fr.page == INVALID_PAGE_ID then p
    else p.(disk := if fr.dirty then p.disk[KeyOf(fr) := fr.data] else p.disk, table := p.table - {KeyOf(fr)})
  }

  /** Takes a frame from the free list, or else evicts one, writing it back. */
  function Acquire(p: Pool): (r: (Pool, Option<nat>))
    requires Coupled(p)
    ensures r.1.Some? ==> r.1.value < |r.0.frames| && r.0.disk.Keys >= p.disk.Keys
  {
    if p.free != [] then
      assert p.free[0] in p.free;
      (Detach(p.(free := p.free[1..]), p.free[0]), Some(p.free[0]))
    else
      var (arc', v) := Evict(p.arc);
      if v.None? then (p, None) else (Detach(p.(arc := arc'), v.value), Some(v.value))
  }

  function Pinned(arc: Arc, f: nat, page: nat): Arc {
    SetEvictable(RecordAccess(arc, f, page), f, false)
  }

  /** Puts a page into frame `f` with one pin. */
  function Install(p: Pool, f: nat, k: Key, data: PageBytes): Pool
    requires f < |p.frames|
  {
    p.(frames := p.frames[f := Frame(k.file, k.page, 1, false, data)],
       table := p.table[k := f],
       arc := Pinned(p.arc, f, k.page))
  }

  function Fetch(p: Pool, k: Key): (Pool, Option<nat>)
    requires Coupled(p) && k in p.disk
  {
    if k in p.table then
      var f := p.table[k];
      (p.(frames := p.frames[f := p.frames[f].(pins := p.frames[f].pins + 1)], arc := Pinned(p.arc, f, k.page)), Some(f))
    else
      var (q, v) := Acquire(p);
      if v.None? then (q, None) else (Install(q, v.value, k, q.disk[k]), v)
  }

  function NewPage(p: Pool, file: nat): (Pool, Option<(nat, nat)>)
    requires Coupled(p)
  {
    var (q, v) := Acquire(p);
    if v.None? then (q, None)
    else
      var k := Key(file, q.next);
      (Install(q, v.value, k, ZeroPage()).(next := q.next + 1, disk := q.disk[k := ZeroPage()]), Some((v.value, q.next)))
  }

  function Unpin(p: Pool, k: Key, dirty: bool): (Pool, bool)
    requires Coupled(p)
  {
    if k !in p.table || p.frames[p.table[k]].pins == 0 then (p, false)
    else
      var f := p.table[k];
      var fr := p.frames[f].(pins := p.frames[f].pins - 1, dirty := p.frames[f].dirty || dirty);
      (p.(frames := p.frames[f := fr], arc := if fr.pins == 0 then SetEvictable(p.arc, f, true) else p.arc), true)
  }

  function WriteBack(p: Pool, f: nat): Pool
    requires f < |p.frames|
  {
    p.(disk := p.disk[KeyOf(p.frames[f]) := p.frames[f].data], frames := p.frames[f := p.frames[f].(dirty := false)])
  }

  function Flush(p: Pool, k: Key): (Pool, bool)
    requires Coupled(p)
  {
    if k !in p.table then (p, false) else (WriteBack(p, p.table[k]), true)
  }

  /** Writes back the dirty pages among the first `n` frames. */
  function FlushFirst(p: Pool, n: nat): (q: Pool)
    requires n <= |p.frames|
    ensures |q.frames| == |p.frames|
  {
    if n == 0 then p
    else
      var q := FlushFirst(p, n - 1);
      if q.frames[n - 1].page != INVALID_PAGE_ID && q.frames[n - 1].dirty then WriteBack(q, n - 1) else q
  }

  /** `None` means that the replacer terminated the process. */
  function DeletePage(p: Pool, k: Key): Option<(Pool, bool)>
    requires Coupled(p)
  {
    if k !in p.table then Some((p, true))
    else if p.frames[p.table[k]].pins > 0 then Some((p, false))
    else
      var f := p.table[k];
      match Remove(p.arc, f)
      case None => None
      case Some(arc') =>
        Some((p.(table := p.table - {k}, arc := arc', free := p.free + [f],
                 frames := p.frames[f := Frame(0, INVALID_PAGE_ID, 0, false, ZeroPage())]), true))
  }

  /** Contents of a guard's page overwritten in its frame. */
  function Write(p: Pool, f: nat, data: PageBytes): Pool
    requires f < |p.frames|
  {
    p.(frames := p.frames[f := p.frames[f].(data := data)])
  }

  // ---------------------------------------------------------------- what the cache shows

  /** The contents of a page: its frame if resident, else the disk. */
  function Shown(p: Pool, k: Key): PageBytes {
    if k in p.table && p.table[k] < |p.frames| then p.frames[p.table[k]].data
    else if k in p.disk then p.disk[k] else ZeroPage()
  }

  /** The disk once the pages `keys` have been written back. */
  ghost function WithSaved(p: Pool, keys: set<Key>): map<Key, PageBytes> {
    map k | k in p.disk :: if k in keys then Shown(p, k) else p.disk[k]
  }

  /** The page that acquiring a frame writes back: that of a dirty victim. */
  ghost function VictimKeys(p: Pool): set<Key> {
    var v := Evict(p.arc).1;
    if p.free == [] && v.Some? && v.value < |p.frames| && p.frames[v.value].dirty then {KeyOf(p.frames[v.value])} else {}
  }

  /** The resident pages whose frames, among the first `n`, are dirty. */
  ghost function DirtyKeys(p: Pool, n: nat): set<Key> {
    set k | k in p.table && p.table[k] < n && p.table[k] < |p.frames| && p.frames[p.table[k]].dirty
  }

  /** Page `k` is resident and nobody has it pinned. */
  predicate Deletable(p: Pool, k: Key) {
    k in p.table && p.table[k] < |p.frames| && p.frames[p.table[k]].pins == 0
  }

  /** Deleting `k` throws away bytes that were never written back. */
  predicate DropsUnsaved(p: Pool, k: Key) {
    Deletable(p, k) && k in p.disk && p.frames[p.table[k]].dirty && p.frames[p.table[k]].data != p.disk[k]
  }

  /** A clean frame equals the disk, unless it is in `writers`. */
  ghost predicate Synced(p: Pool, writers: set<nat>) {
    forall f :: f in p.arc.alive && f < |p.frames| && !p.frames[f].dirty && f !in writers ==>
      KeyOf(p.frames[f]) in p.disk && p.disk[KeyOf(p.frames[f])] == p.frames[f].data
  }

  /** Every frame in `writers` is pinned. */
  ghost predicate WritersPinned(p: Pool, writers: set<nat>) {
    forall f :: f in writers ==> f < |p.frames| && f in p.arc.alive && p.frames[f].pins > 0
  }

  ghost predicate Good(p: Pool, writers: set<nat>) {
    Coupled(p) && Synced(p, writers) && WritersPinned(p, writers)
  }

  ghost predicate SameShown(p: Pool, q: Pool) {
    forall k :: k in p.disk ==> k in q.disk && Shown(q, k) == Shown(p, k)
  }

  /** Apart from frame `f`, the frames are the same. */
  ghost predicate SameFramesBut(p: Pool, q: Pool, f: nat) {
    |q.frames| == |p.frames| && forall g :: 0 <= g < |p.frames| && g != f ==> q.frames[g] == p.frames[g]
  }

  ghost predicate AllFramesPinned(p: Pool) {
    forall f :: 0 <= f < |p.frames| ==> p.frames[f].pins > 0
  }
}
