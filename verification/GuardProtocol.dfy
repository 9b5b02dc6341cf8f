/** Threads that hold page guards, as a transition system: each guard pins its
    page under the pool latch, takes the page latch, reads or writes, releases
    the latch and unpins, while flushes, evictions, allocations and deletions
    happen in between. */
module GuardProtocol {
  import opened Config
  import opened PageLayout
  import opened ArcPolicy
  import opened BufferPool
  import opened PoolInvariant

  datatype Mode = Shared | Exclusive

  /** A guard waits for the page latch, holds it, or has released it but not yet
      its pin. */
  datatype Phase = Waiting | Holding | Released

  datatype Guard = Guard(frame: nat, key: Key, mode: Mode, phase: Phase)

  /** Two records of the past: `committed` holds, for each page, the contents left
      by the last completed write (a writer completes when it releases the latch);
      `lost` holds the pages of which a deletion has thrown away unsaved bytes
      since their last completed write. */
  datatype Sys = Sys(pool: Pool, guards: map<nat, Guard>, committed: map<Key, PageBytes>, lost: set<Key>)

  datatype Step =
    | Pin(g: nat, mode: Mode, key: Key)
    | Create(g: nat, file: nat)
    | Lock(g: nat)
    | Overwrite(g: nat, data: PageBytes)
    | Unlock(g: nat)
    | Drop(g: nat)
    | FlushPage(key: Key)
    | FlushAll
    | DeleteKey(key: Key)

  /** The shared mutex of frame `f` can be taken in `mode`. */
  ghost predicate LatchFree(guards: map<nat, Guard>, f: nat, mode: Mode) {
    forall h :: h in guards && guards[h].frame == f && guards[h].phase == Holding ==>
      mode == Shared && guards[h].mode == Shared
  }

  ghost predicate Enabled(s: Sys, step: Step) {
    match step
    case Pin(g, _, key) => g !in s.guards && key in s.pool.disk
    case Create(g, _) => g !in s.guards && s.pool.next < INVALID_PAGE_ID
    case Lock(g) => g in s.guards && s.guards[g].phase == Waiting && LatchFree(s.guards, s.guards[g].frame, s.guards[g].mode)
    case Overwrite(g, _) => g in s.guards && s.guards[g].phase == Holding && s.guards[g].mode == Exclusive
    case Unlock(g) => g in s.guards && s.guards[g].phase == Holding
    case Drop(g) => g in s.guards && s.guards[g].phase == Released
    case _ => true
  }

  // ---------------------------------------------------------------- the invariant

  /** Frames with an outstanding write pin. */
  ghost function Writers(guards: map<nat, Guard>): set<nat> {
    set g | g in guards && guards[g].mode == Exclusive :: guards[g].frame
  }

  ghost function GuardsOn(guards: map<nat, Guard>, f: nat): set<nat> {
    set g | g in guards && guards[g].frame == f
  }

  /** Every guard's frame still holds its page. */
  ghost predicate Anchored(frames: seq<Frame>, table: map<Key, nat>, guards: map<nat, Guard>) {
    forall g :: g in guards ==>
      guards[g].frame < |frames| && KeyOf(frames[guards[g].frame]) == guards[g].key &&
      guards[g].key in table && table[guards[g].key] == guards[g].frame
  }

  /** A frame has as many pins as guards. */
  ghost predicate PinsCounted(frames: seq<Frame>, guards: map<nat, Guard>) {
    forall f :: 0 <= f < |frames| ==> frames[f].pins == |GuardsOn(guards, f)|
  }

  /** A latched exclusive guard excludes every other latched guard on its frame. */
  ghost predicate LatchesExclusive(guards: map<nat, Guard>) {
    forall g, h :: g in guards && h in guards && g != h && guards[g].frame == guards[h].frame &&
                   guards[g].phase == Holding && guards[h].phase == Holding ==>
      guards[g].mode == Shared && guards[h].mode == Shared
  }

  ghost predicate BeingWritten(guards: map<nat, Guard>, k: Key) {
    exists g :: g in guards && guards[g].key == k && guards[g].mode == Exclusive && guards[g].phase == Holding
  }

  /** Outside of a write in progress, the cache shows the last completed write,
      unless the page lost it: then it shows the disk, which is something else. */
  ghost predicate CommittedShown(s: Sys) {
    && s.committed.Keys == s.pool.disk.Keys && s.lost <= s.committed.Keys
    && forall k :: k in s.pool.disk && !BeingWritten(s.guards, k) ==>
         if k in s.lost then Shown(s.pool, k) == s.pool.disk[k] != s.committed[k]
         else Shown(s.pool, k) == s.committed[k]
  }

  ghost predicate SysInv(s: Sys) {
    && Good(s.pool, Writers(s.guards))
    && Anchored(s.pool.frames, s.pool.table, s.guards)
    && PinsCounted(s.pool.frames, s.guards)
    && LatchesExclusive(s.guards)
    && CommittedShown(s)
  }

  // ---------------------------------------------------------------- steps

  /** The pool is coupled and guards refer to its frames, so that every access a
      step makes is within bounds. */
  ghost predicate Defined(s: Sys) {
    Coupled(s.pool) && forall g :: g in s.guards ==> s.guards[g].frame < |s.pool.frames|
  }

  /** The state after a step; `None` means that the process terminated. */
  function After(s: Sys, step: Step): Option<Sys>
    requires Defined(s) && Enabled(s, step)
  {
    match step
    case Pin(g, mode, key) =>
      var (q, v) := Fetch(s.pool, key);
      if v.None? then Some(s)
      else Some(s.(pool := q, guards := s.guards[g := Guard(v.value, key, mode, Waiting)]))
    case Create(g, file) =>
      var (q, v) := NewPage(s.pool, file);
      if v.None? then Some(s)
      else
        var key := Key(file, v.value.1);
        Some(s.(pool := q, guards := s.guards[g := Guard(v.value.0, key, Exclusive, Waiting)],
                committed := s.committed[key := ZeroPage()]))
    case Lock(g) => Some(s.(guards := s.guards[g := s.guards[g].(phase := Holding)]))
    case Overwrite(g, data) => Some(s.(pool := Write(s.pool, s.guards[g].frame, data)))
    case Unlock(g) =>
      var u := s.guards[g];
      Some(s.(guards := s.guards[g := u.(phase := Released)],
              committed := if u.mode == Exclusive then s.committed[u.key := s.pool.frames[u.frame].data] else s.committed,
              lost := if u.mode == Exclusive then s.lost - {u.key} else s.lost))
    case Drop(g) =>
      var u := s.guards[g];
      Some(s.(pool := Unpin(s.pool, KeyOf(s.pool.frames[u.frame]), u.mode == Exclusive).0, guards := s.guards - {g}))
    case FlushPage(key) => Some(s.(pool := Flush(s.pool, key).0))
    case FlushAll => Some(s.(pool := FlushFirst(s.pool, |s.pool.frames|)))
    case DeleteKey(key) =>
      match DeletePage(s.pool, key)
      case None => None
      case Some((q, ok)) =>
        Some(s.(pool := q, lost := if DropsUnsaved(s.pool, key) then s.lost + {key} else s.lost))
  }

  /** A fresh pool of `n` frames over an empty disk, and no guard. */
  function Start(n: nat): Sys {
    Sys(FreshPool(n), map[], map[], {})
  }

  /** State `t` is reachable from `s` by these enabled steps. */
  ghost predicate Reaches(s: Sys, steps: seq<Step>, t: Sys)
    decreases |steps|
  {
    if steps == [] then s == t
    else
      && Defined(s) && Enabled(s, steps[0])
      && After(s, steps[0]).Some?
      && Reaches(After(s, steps[0]).value, steps[1..], t)
  }

  // ---------------------------------------------------------------- the plain store behind the cache

  /** What the cache shows, for all allocated pages. */
  ghost function Contents(p: Pool): map<Key, PageBytes> {
    map k | k in p.disk :: Shown(p, k)
  }

  /** A store without frames, pins or eviction: current contents, and what is on
      disk. */
  datatype Store = Store(current: map<Key, PageBytes>, disk: map<Key, PageBytes>)

  ghost function View(p: Pool): Store {
    Store(Contents(p), p.disk)
  }

  /** Writing pages back, overwriting a page, allocating one, and throwing away
      what was not written back. */
  datatype Event = Save(keys: set<Key>) | Put(key: Key, data: PageBytes) | Fresh(key: Key) | Discard(key: Key)

  function Apply(m: Store, e: Event): Store {
    match e
    case Save(keys) => m.(disk := map k | k in m.disk :: if k in keys && k in m.current then m.current[k] else m.disk[k])
    case Put(key, data) => m.(current := m.current[key := data])
    case Fresh(key) => Store(m.current[key := ZeroPage()], m.disk[key := ZeroPage()])
    case Discard(key) => if key in m.disk then m.(current := m.current[key := m.disk[key]]) else m
  }

  function ApplyAll(m: Store, es: seq<Event>): Store {
    if es == [] then m else Apply(ApplyAll(m, es[..|es| - 1]), es[|es| - 1])
  }

  /** What a step asks of the store: the pages it writes back come first. */
  ghost function Events(s: Sys, step: Step): seq<Event>
    requires Defined(s) && Enabled(s, step)
  {
    match step
    case Pin(_, _, key) => if key in s.pool.table then [] else [Save(VictimKeys(s.pool))]
    case Create(_, file) =>
      if NewPage(s.pool, file).1.None? then [] else [Save(VictimKeys(s.pool)), Fresh(Key(file, s.pool.next))]
    case Overwrite(g, data) => [Put(s.guards[g].key, data)]
    case FlushPage(key) => if key in s.pool.table then [Save({key})] else []
    case FlushAll => [Save(DirtyKeys(s.pool, |s.pool.frames|))]
    case DeleteKey(key) => if Deletable(s.pool, key) then [Discard(key)] else []
    case _ => []
  }

  /** The events of a run, in order. */
  ghost function Trace(s: Sys, steps: seq<Step>, t: Sys): seq<Event>
    requires Reaches(s, steps, t)
    decreases |steps|
  {
    if steps == [] then []
    else Events(s, steps[0]) + Trace(After(s, steps[0]).value, steps[1..], t)
  }
}
