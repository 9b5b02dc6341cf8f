/** Every step of the guard protocol keeps its invariant, and what follows for
    readers and writers in every reachable state. */
module GuardInvariant {
  import opened Config
  import opened PageLayout
  import opened ArcPolicy
  import opened BufferPool
  import opened PoolInvariant
  import opened GuardProtocol

  // ---------------------------------------------------------------- counting guards

  lemma GuardAdded(guards: map<nat, Guard>, g: nat, u: Guard)
    requires g !in guards
    ensures forall f: nat :: |GuardsOn(guards[g := u], f)| == |GuardsOn(guards, f)| + if f == u.frame then 1 else 0
    ensures Writers(guards[g := u]) == Writers(guards) + if u.mode == Exclusive then {u.frame} else {}
  {
    hide Writers;
    forall f: nat
      ensures |GuardsOn(guards[g := u], f)| == |GuardsOn(guards, f)| + if f == u.frame then 1 else 0
    {
      GuardCounted(guards, g, u, f);
    }
    WritersAdded(guards, g, u);
  }

  lemma GuardCounted(guards: map<nat, Guard>, g: nat, u: Guard, f: nat)
    requires g !in guards
    ensures |GuardsOn(guards[g := u], f)| == |GuardsOn(guards, f)| + if f == u.frame then 1 else 0
  {
    if f == u.frame {
      assert GuardsOn(guards[g := u], f) == GuardsOn(guards, f) + {g};
    } else {
      assert GuardsOn(guards[g := u], f) == GuardsOn(guards, f);
    }
  }

  lemma WritersAdded(guards: map<nat, Guard>, g: nat, u: Guard)
    requires g !in guards
    ensures Writers(guards[g := u]) == Writers(guards) + if u.mode == Exclusive then {u.frame} else {}
  {
    var guards' := guards[g := u];
    forall f | f in Writers(guards)
      ensures f in Writers(guards')
    {
      var h :| h in guards && guards[h].mode == Exclusive && guards[h].frame == f;
      assert h in guards' && guards'[h] == guards[h];
    }
    if u.mode == Exclusive {
      assert g in guards' && guards'[g] == u;
      assert u.frame in Writers(guards');
    }
    forall f | f in Writers(guards')
      ensures f in Writers(guards) || (u.mode == Exclusive && f == u.frame)
    {
      var h :| h in guards' && guards'[h].mode == Exclusive && guards'[h].frame == f;
      if h != g { assert guards[h] == guards'[h]; }
    }
  }

  lemma GuardRemoved(guards: map<nat, Guard>, g: nat)
    requires g in guards
    ensures forall f :: |GuardsOn(guards, f)| == |GuardsOn(guards - {g}, f)| + if f == guards[g].frame then 1 else 0
    ensures Writers(guards) == Writers(guards - {g}) + if guards[g].mode == Exclusive then {guards[g].frame} else {}
  {
    var rest := guards - {g};
    assert rest[g := guards[g]] == guards;
    GuardAdded(rest, g, guards[g]);
  }

  /** A change of phase moves neither pins nor writers. */
  lemma GuardRephased(guards: map<nat, Guard>, g: nat, phase: Phase)
    requires g in guards
    ensures forall f :: GuardsOn(guards[g := guards[g].(phase := phase)], f) == GuardsOn(guards, f)
    ensures Writers(guards[g := guards[g].(phase := phase)]) == Writers(guards)
  {
    var guards' := guards[g := guards[g].(phase := phase)];
    var rest := guards - {g};
    assert rest[g := guards[g]] == guards && rest[g := guards'[g]] == guards';
    WritersAdded(rest, g, guards[g]);
    WritersAdded(rest, g, guards'[g]);
  }

  lemma NoGuards(guards: map<nat, Guard>, f: nat)
    requires |GuardsOn(guards, f)| == 0
    ensures forall g :: g in guards ==> guards[g].frame != f
  {
    forall g | g in guards
      ensures guards[g].frame != f
    {
      assert guards[g].frame == f ==> g in GuardsOn(guards, f);
    }
  }

  lemma HasGuard(guards: map<nat, Guard>, g: nat)
    requires g in guards
    ensures |GuardsOn(guards, guards[g].frame)| > 0
  {
    assert g in GuardsOn(guards, guards[g].frame);
  }

  // ---------------------------------------------------------------- pin, create

  lemma BeingWrittenAdded(guards: map<nat, Guard>, g: nat, u: Guard, k: Key)
    requires g !in guards && u.phase != Holding
    ensures BeingWritten(guards[g := u], k) <==> BeingWritten(guards, k)
  {
    var guards' := guards[g := u];
    if BeingWritten(guards, k) {
      var h :| h in guards && guards[h].key == k && guards[h].mode == Exclusive && guards[h].phase == Holding;
      assert h in guards' && guards'[h] == guards[h];
    }
  }

  /** A frame that changed hands had no guard, so every guard stays anchored and
      the new one adds exactly one pin. */
  lemma PinAnchored(p: Pool, q: Pool, guards: map<nat, Guard>, g: nat, u: Guard)
    requires Anchored(p.frames, p.table, guards) && PinsCounted(p.frames, guards) && g !in guards
    requires Coupled(q)
    requires u.frame < |p.frames| && SameFramesBut(p, q, u.frame)
    requires KeyOf(q.frames[u.frame]) == u.key && u.key in q.table && q.table[u.key] == u.frame
    requires q.frames[u.frame].pins == p.frames[u.frame].pins + 1
    requires p.frames[u.frame].pins > 0 ==> KeyOf(p.frames[u.frame]) == u.key
    ensures Anchored(q.frames, q.table, guards[g := u]) && PinsCounted(q.frames, guards[g := u])
  {
    hide CoupledBut;
    GuardAdded(guards, g, u);
    forall h | h in guards
      ensures guards[h].frame < |q.frames| && KeyOf(q.frames[guards[h].frame]) == guards[h].key
      ensures guards[h].key in q.table && q.table[guards[h].key] == guards[h].frame
    {
      HasGuard(guards, h);
      var f := guards[h].frame;
      if f != u.frame {
        PinnedIsLive(q, f);
      }
    }
  }

  lemma LatchesAdded(guards: map<nat, Guard>, g: nat, u: Guard)
    requires LatchesExclusive(guards) && g !in guards && u.phase != Holding
    ensures LatchesExclusive(guards[g := u])
  {
  }

  lemma PinKeeps(s: Sys, g: nat, mode: Mode, key: Key)
    requires SysInv(s) && Enabled(s, Pin(g, mode, key))
    ensures Defined(s)
    ensures After(s, Pin(g, mode, key)).Some? && SysInv(After(s, Pin(g, mode, key)).value)
  {
    hide CoupledBut, Synced, WritersPinned, Anchored, PinsCounted, LatchesExclusive, Fetch, BeingWritten, Shown, Defined;
    InvDefined(s);
    var w := Writers(s.guards);
    hide Writers;
    FetchKeeps(s.pool, key, w);
    var (q, v) := Fetch(s.pool, key);
    if v.Some? {
      var u := Guard(v.value, key, mode, Waiting);
      PinAnchored(s.pool, q, s.guards, g, u);
      LatchesAdded(s.guards, g, u);
      WritersAdded(s.guards, g, u);
      GoodMore(q, w, v.value);
      assert w + {} == w;
      forall k
        ensures BeingWritten(s.guards[g := u], k) <==> BeingWritten(s.guards, k)
      {
        BeingWrittenAdded(s.guards, g, u, k);
      }
    }
  }

  /** A fresh page starts with its zeros committed; nothing else changes. */
  lemma CreateCommitted(s: Sys, q: Pool, keys: set<Key>, key: Key, guards': map<nat, Guard>)
    requires CommittedShown(s) && SameShown(s.pool, q) && key !in s.pool.disk
    requires q.disk == WithSaved(s.pool, keys)[key := ZeroPage()] && Shown(q, key) == ZeroPage()
    requires forall k :: BeingWritten(guards', k) <==> BeingWritten(s.guards, k)
    ensures CommittedShown(s.(pool := q, guards := guards', committed := s.committed[key := ZeroPage()]))
  {
    hide Shown, BeingWritten, ZeroPage;
    assert q.disk.Keys == s.pool.disk.Keys + {key};
  }

  lemma CreateKeeps(s: Sys, g: nat, file: nat)
    requires SysInv(s) && Enabled(s, Create(g, file))
    ensures Defined(s)
    ensures After(s, Create(g, file)).Some? && SysInv(After(s, Create(g, file)).value)
  {
    hide CoupledBut, Synced, WritersPinned, Anchored, PinsCounted, LatchesExclusive, NewPage, BeingWritten, Shown, Defined, VictimKeys;
    InvDefined(s);
    var w := Writers(s.guards);
    hide Writers;
    NewPageKeeps(s.pool, file, w);
    var (q, v) := NewPage(s.pool, file);
    if v.Some? {
      var key := Key(file, v.value.1);
      var u := Guard(v.value.0, key, Exclusive, Waiting);
      PinAnchored(s.pool, q, s.guards, g, u);
      LatchesAdded(s.guards, g, u);
      WritersAdded(s.guards, g, u);
      GoodMore(q, w, v.value.0);
      assert w + {v.value.0} == Writers(s.guards[g := u]);
      forall k
        ensures BeingWritten(s.guards[g := u], k) <==> BeingWritten(s.guards, k)
      {
        BeingWrittenAdded(s.guards, g, u, k);
      }
      CreateCommitted(s, q, VictimKeys(s.pool), key, s.guards[g := u]);
      hide Good, CommittedShown, Created, SameShown, WithSaved;
    }
  }

  // ---------------------------------------------------------------- lock, overwrite, unlock, drop

  lemma LockedLatches(guards: map<nat, Guard>, g: nat)
    requires LatchesExclusive(guards) && g in guards && LatchFree(guards, guards[g].frame, guards[g].mode)
    ensures LatchesExclusive(guards[g := guards[g].(phase := Holding)])
  {
  }

  lemma RephasedAnchored(frames: seq<Frame>, table: map<Key, nat>, guards: map<nat, Guard>, g: nat, phase: Phase)
    requires Anchored(frames, table, guards) && g in guards
    ensures Anchored(frames, table, guards[g := guards[g].(phase := phase)])
  {
  }

  /** What was being written still is after a lock is taken. */
  lemma StillWritten(guards: map<nat, Guard>, g: nat, k: Key)
    requires g in guards && guards[g].phase == Waiting && BeingWritten(guards, k)
    ensures BeingWritten(guards[g := guards[g].(phase := Holding)], k)
  {
    var guards' := guards[g := guards[g].(phase := Holding)];
    var h :| h in guards && guards[h].key == k && guards[h].mode == Exclusive && guards[h].phase == Holding;
    assert h in guards' && guards'[h] == guards[h];
  }

  lemma LockKeeps(s: Sys, g: nat)
    requires SysInv(s) && Enabled(s, Lock(g))
    ensures Defined(s)
    ensures After(s, Lock(g)).Some? && SysInv(After(s, Lock(g)).value)
  {
    hide Good, PinsCounted, Writers, GuardsOn, Shown, Defined, Anchored, LatchesExclusive, LatchFree, BeingWritten;
    InvDefined(s);
    GuardRephased(s.guards, g, Holding);
    var s' := After(s, Lock(g)).value;
    PhasePins(s.pool.frames, s.guards, s'.guards);
    RephasedAnchored(s.pool.frames, s.pool.table, s.guards, g, Holding);
    LockedLatches(s.guards, g);
    forall k | BeingWritten(s.guards, k)
      ensures BeingWritten(s'.guards, k)
    {
      StillWritten(s.guards, g, k);
    }
  }

  lemma PhasePins(frames: seq<Frame>, guards: map<nat, Guard>, guards': map<nat, Guard>)
    requires PinsCounted(frames, guards)
    requires forall f :: GuardsOn(guards', f) == GuardsOn(guards, f)
    ensures PinsCounted(frames, guards')
  {
  }

  lemma IsWritten(guards: map<nat, Guard>, g: nat)
    requires g in guards && guards[g].mode == Exclusive && guards[g].phase == Holding
    ensures BeingWritten(guards, guards[g].key)
  {
  }

  lemma OverwriteKeeps(s: Sys, g: nat, data: PageBytes)
    requires SysInv(s) && Enabled(s, Overwrite(g, data))
    ensures Defined(s)
    ensures After(s, Overwrite(g, data)).Some? && SysInv(After(s, Overwrite(g, data)).value)
  {
    hide Good, GuardsOn, Shown, LatchesExclusive, Defined, BeingWritten;
    InvDefined(s);
    var u := s.guards[g];
    assert u.frame in Writers(s.guards);
    hide Writers;
    WriteKeeps(s.pool, u.frame, data, Writers(s.guards));
    IsWritten(s.guards, g);
  }

  /** A page stops being written when its exclusive guard lets go, and only then. */
  lemma WritingAfter(guards: map<nat, Guard>, g: nat, phase: Phase, k: Key)
    requires g in guards
    requires guards[g].key != k || guards[g].mode == Shared
    ensures BeingWritten(guards[g := guards[g].(phase := phase)], k) <==> BeingWritten(guards, k)
  {
    var guards' := guards[g := guards[g].(phase := phase)];
    if BeingWritten(guards, k) {
      var h :| h in guards && guards[h].key == k && guards[h].mode == Exclusive && guards[h].phase == Holding;
      assert h in guards' && guards'[h] == guards[h];
    }
    if BeingWritten(guards', k) {
      var h :| h in guards' && guards'[h].key == k && guards'[h].mode == Exclusive && guards'[h].phase == Holding;
      assert h in guards && guards'[h] == guards[h];
    }
  }

  lemma UnlockKeeps(s: Sys, g: nat)
    requires SysInv(s) && Enabled(s, Unlock(g))
    ensures Defined(s)
    ensures After(s, Unlock(g)).Some? && SysInv(After(s, Unlock(g)).value)
  {
    hide Good, PinsCounted, Writers, GuardsOn, BeingWritten, Defined;
    InvDefined(s);
    var u := s.guards[g];
    var s' := After(s, Unlock(g)).value;
    GuardRephased(s.guards, g, Released);
    PhasePins(s.pool.frames, s.guards, s'.guards);
    UnlockLatches(s.guards, g);
    GuardKey(s, g);
    hide LatchesExclusive;
    forall k | u.mode == Shared || k != u.key
      ensures BeingWritten(s'.guards, k) <==> BeingWritten(s.guards, k)
    {
      WritingAfter(s.guards, g, Released, k);
    }
    assert s'.committed.Keys == s'.pool.disk.Keys;
  }

  lemma UnlockLatches(guards: map<nat, Guard>, g: nat)
    requires LatchesExclusive(guards) && g in guards
    ensures LatchesExclusive(guards[g := guards[g].(phase := Released)])
  {
  }

  /** A guard's page is allocated, pinned and resident in the guard's frame. */
  lemma GuardKey(s: Sys, g: nat)
    requires SysInv(s) && g in s.guards
    ensures s.guards[g].key in s.pool.disk && s.guards[g].frame < |s.pool.frames|
    ensures s.pool.frames[s.guards[g].frame].pins > 0
    ensures KeyOf(s.pool.frames[s.guards[g].frame]) == s.guards[g].key
    ensures s.guards[g].key in s.pool.table && s.pool.table[s.guards[g].key] == s.guards[g].frame
  {
    hide GuardsOn, CommittedShown, Synced, WritersPinned, CoupledBut;
    HasGuard(s.guards, g);
    PinnedIsLive(s.pool, s.guards[g].frame);
  }

  lemma WritingWithout(guards: map<nat, Guard>, g: nat, k: Key)
    requires g in guards && guards[g].phase != Holding
    ensures BeingWritten(guards - {g}, k) <==> BeingWritten(guards, k)
  {
    var rest := guards - {g};
    assert rest[g := guards[g]] == guards;
    BeingWrittenAdded(rest, g, guards[g], k);
  }

  lemma DropAnchored(p: Pool, q: Pool, guards: map<nat, Guard>, g: nat)
    requires Anchored(p.frames, p.table, guards) && PinsCounted(p.frames, guards) && g in guards
    requires guards[g].frame < |p.frames| && SameFramesBut(p, q, guards[g].frame) && q.table == p.table
    requires KeyOf(q.frames[guards[g].frame]) == KeyOf(p.frames[guards[g].frame])
    requires q.frames[guards[g].frame].pins == p.frames[guards[g].frame].pins - 1
    ensures Anchored(q.frames, q.table, guards - {g}) && PinsCounted(q.frames, guards - {g})
  {
    GuardRemoved(guards, g);
    hide GuardsOn, Writers;
  }

  /** Dropping a guard unpins its own page, and the pool accepts the unpin. */
  lemma DropKeeps(s: Sys, g: nat)
    requires SysInv(s) && Enabled(s, Drop(g))
    ensures Defined(s)
    ensures After(s, Drop(g)).Some? && SysInv(After(s, Drop(g)).value)
    ensures Unpin(s.pool, KeyOf(s.pool.frames[s.guards[g].frame]), s.guards[g].mode == Exclusive).1
  {
    hide CoupledBut, Synced, WritersPinned, Unpin, BeingWritten, Anchored, LatchesExclusive, Shown, Defined;
    InvDefined(s);
    var u := s.guards[g];
    var rest := s.guards - {g};
    GuardKey(s, g);
    GuardRemoved(s.guards, g);
    var w, w' := Writers(s.guards), Writers(rest);
    if s.pool.frames[u.frame].pins == 1 {
      NoGuards(rest, u.frame);
      NoWriter(rest, u.frame);
    }
    hide Writers, GuardsOn, PinsCounted;
    UnpinKeeps(s.pool, u.key, u.mode == Exclusive, w, w');
    var q := Unpin(s.pool, u.key, u.mode == Exclusive).0;
    DropAnchored(s.pool, q, s.guards, g);
    FewerLatches(s.guards, g);
    forall k
      ensures BeingWritten(rest, k) <==> BeingWritten(s.guards, k)
    {
      WritingWithout(s.guards, g, k);
    }
  }

  lemma NoWriter(guards: map<nat, Guard>, f: nat)
    requires forall g :: g in guards ==> guards[g].frame != f
    ensures f !in Writers(guards)
  {
  }

  lemma FewerLatches(guards: map<nat, Guard>, g: nat)
    requires LatchesExclusive(guards)
    ensures LatchesExclusive(guards - {g})
  {
  }

  // ---------------------------------------------------------------- flush, delete

  lemma FlushKeeps(s: Sys, key: Key)
    requires SysInv(s)
    ensures Defined(s)
    ensures After(s, FlushPage(key)).Some? && SysInv(After(s, FlushPage(key)).value)
  {
    hide CoupledBut, Synced, WritersPinned, BeingWritten, LatchesExclusive, Shown, Writers, GuardsOn, Defined;
    InvDefined(s);
    if key in s.pool.table {
      TableFact(s.pool, key);
      WriteBackKeeps(s.pool, s.pool.table[key], Writers(s.guards));
      hide WriteBack;
    }
  }

  lemma FlushAllKeeps(s: Sys)
    requires SysInv(s)
    ensures Defined(s)
    ensures After(s, FlushAll).Some? && SysInv(After(s, FlushAll).value)
  {
    hide CoupledBut, Synced, WritersPinned, BeingWritten, LatchesExclusive, Shown, Writers, GuardsOn, FlushFirst, Defined;
    InvDefined(s);
    FlushFirstKeeps(s.pool, |s.pool.frames|, Writers(s.guards));
  }

  lemma DeleteKeyKeeps(s: Sys, key: Key)
    requires SysInv(s)
    ensures Defined(s)
    ensures After(s, DeleteKey(key)).Some? && SysInv(After(s, DeleteKey(key)).value)
  {
    hide Coupled, Synced, WritersPinned, BeingWritten, LatchesExclusive, Shown, Writers, GuardsOn, DeletePage, Defined;
    InvDefined(s);
    DeleteKeeps(s.pool, key, Writers(s.guards));
    DeleteShows(s.pool, key, Writers(s.guards));
    hide DropsUnsaved;
    DeleteSpares(s, key, DeletePage(s.pool, key).value.0, DeletePage(s.pool, key).value.1);
    hide Deleted;
  }

  /** A deletion leaves every guard's page and frame alone. */
  lemma DeleteSpares(s: Sys, key: Key, q: Pool, ok: bool)
    requires SysInv(s) && Deleted(s.pool, key, q, ok)
    ensures Anchored(q.frames, q.table, s.guards) && PinsCounted(q.frames, s.guards)
    ensures q.disk == s.pool.disk
  {
    hide Good, CommittedShown, LatchesExclusive, Writers, GuardsOn, Shown;
    forall g | g in s.guards
      ensures ok ==> s.guards[g].key != key
      ensures q.frames[s.guards[g].frame] == s.pool.frames[s.guards[g].frame]
    {
      GuardKey(s, g);
    }
  }

  // ---------------------------------------------------------------- every run

  /** No enabled step is undefined, terminates the process or breaks the invariant. */
  lemma StepKeeps(s: Sys, step: Step)
    requires SysInv(s) && Enabled(s, step)
    ensures Defined(s) && After(s, step).Some? && SysInv(After(s, step).value)
  {
    InvDefined(s);
    hide SysInv, After, Enabled, Defined;
    match step {
      case Pin(g, mode, key) => PinKeeps(s, g, mode, key);
      case Create(g, file) => CreateKeeps(s, g, file);
      case Lock(g) => LockKeeps(s, g);
      case Overwrite(g, data) => OverwriteKeeps(s, g, data);
      case Unlock(g) => UnlockKeeps(s, g);
      case Drop(g) => DropKeeps(s, g);
      case FlushPage(key) => FlushKeeps(s, key);
      case FlushAll => FlushAllKeeps(s);
      case DeleteKey(key) => DeleteKeyKeeps(s, key);
    }
  }

  lemma InvDefined(s: Sys)
    requires SysInv(s)
    ensures Defined(s)
  {
    hide CoupledBut, Synced, WritersPinned, CommittedShown, PinsCounted;
  }

  lemma StartInvariant(n: nat)
    ensures SysInv(Start(n))
  {
    FreshPoolGood(n);
    assert Writers(map[]) == {};
    hide Good;
  }

  /** The invariant holds in every state that any interleaving can reach. */
  lemma {:induction false} RunsKeepInv(s: Sys, steps: seq<Step>, t: Sys)
    requires SysInv(s) && Reaches(s, steps, t)
    ensures SysInv(t)
    decreases |steps|
  {
    hide SysInv, After, Enabled, Defined;
    if steps != [] {
      StepKeeps(s, steps[0]);
      RunsKeepInv(After(s, steps[0]).value, steps[1..], t);
    }
  }

  // ---------------------------------------------------------------- what guards may rely on

  /** In every reachable state a latched guard's page is pinned in the guard's
      frame, and the frame cannot be evicted. */
  lemma LatchedIsPinned(n: nat, steps: seq<Step>, s: Sys, g: nat)
    requires Reaches(Start(n), steps, s) && g in s.guards
    ensures var u := s.guards[g];
            && u.frame < |s.pool.frames| && s.pool.frames[u.frame].pins > 0
            && KeyOf(s.pool.frames[u.frame]) == u.key && u.key in s.pool.table && s.pool.table[u.key] == u.frame
            && u.frame in s.pool.arc.alive && !s.pool.arc.alive[u.frame].evictable
  {
    hide SysInv, Reaches;
    StartInvariant(n);
    RunsKeepInv(Start(n), steps, s);
    GuardKey(s, g);
    Pinned0(s, g);
  }

  lemma Pinned0(s: Sys, g: nat)
    requires SysInv(s) && g in s.guards
    ensures s.guards[g].frame in s.pool.arc.alive && !s.pool.arc.alive[s.guards[g].frame].evictable
  {
    GuardKey(s, g);
    PinnedIsLive(s.pool, s.guards[g].frame);
    LiveFact(s.pool, s.guards[g].frame);
  }

  /** In every reachable state a latched writer is alone on its page. */
  lemma WriterIsAlone(n: nat, steps: seq<Step>, s: Sys, g: nat, h: nat)
    requires Reaches(Start(n), steps, s) && g in s.guards && h in s.guards && g != h
    requires s.guards[g].phase == Holding && s.guards[g].mode == Exclusive && s.guards[h].phase == Holding
    ensures s.guards[h].key != s.guards[g].key && s.guards[h].frame != s.guards[g].frame
  {
    hide Reaches, Good, CommittedShown, PinsCounted;
    StartInvariant(n);
    RunsKeepInv(Start(n), steps, s);
  }

  /** In every reachable state a latched reader, or a writer at the moment it can
      take the latch, sees the last completed write to its page exactly if no
      deletion has thrown away unsaved bytes of the page since. */
  lemma ReaderSeesLastWrite(n: nat, steps: seq<Step>, s: Sys, g: nat)
    requires Reaches(Start(n), steps, s) && g in s.guards
    requires (s.guards[g].phase == Holding && s.guards[g].mode == Shared) ||
             (s.guards[g].mode == Exclusive && Enabled(s, Lock(g)))
    ensures var u := s.guards[g];
            && u.frame < |s.pool.frames| && u.key in s.committed
            && (s.pool.frames[u.frame].data == s.committed[u.key] <==> u.key !in s.lost)
  {
    hide Reaches, Good, PinsCounted;
    StartInvariant(n);
    RunsKeepInv(Start(n), steps, s);
    GuardKey(s, g);
    var u := s.guards[g];
    assert u.key in s.pool.disk.Keys;
    assert !BeingWritten(s.guards, u.key);
  }

  /** In every reachable state a clean frame without an outstanding write pin
      equals the disk. */
  lemma CleanEqualsDisk(n: nat, steps: seq<Step>, s: Sys, f: nat)
    requires Reaches(Start(n), steps, s) && f < |s.pool.frames| && s.pool.frames[f].page != INVALID_PAGE_ID
    requires !s.pool.frames[f].dirty
    requires forall g :: g in s.guards && s.guards[g].frame == f ==> s.guards[g].mode == Shared
    ensures KeyOf(s.pool.frames[f]) in s.pool.disk
    ensures s.pool.disk[KeyOf(s.pool.frames[f])] == s.pool.frames[f].data
  {
    hide Reaches, CommittedShown, PinsCounted, CoupledBut;
    StartInvariant(n);
    RunsKeepInv(Start(n), steps, s);
    FrameFact(s.pool, f);
  }

  // ---------------------------------------------------------------- cache transparency

  lemma ShownContents(p: Pool, q: Pool)
    requires SameShown(p, q) && q.disk.Keys == p.disk.Keys
    ensures Contents(q) == Contents(p)
  {
    assert forall k :: k in q.disk <==> k in q.disk.Keys;
  }

  /** Saving pages of the store is what writing them back does to the pool. */
  lemma SavedView(p: Pool, q: Pool, keys: set<Key>)
    requires SameShown(p, q) && q.disk == WithSaved(p, keys)
    ensures View(q) == Apply(View(p), Save(keys))
  {
    hide Shown;
    assert q.disk.Keys == p.disk.Keys;
    ShownContents(p, q);
  }

  lemma SameView(p: Pool, q: Pool)
    requires SameShown(p, q) && q.disk == p.disk
    ensures View(q) == View(p)
  {
    ShownContents(p, q);
  }

  lemma NoEvent(m: Store)
    ensures ApplyAll(m, []) == m
  {
  }

  lemma OneEvent(m: Store, e: Event)
    ensures ApplyAll(m, [e]) == Apply(m, e)
  {
    hide Apply;
    NoEvent(m);
    assert [e][..0] == [];
  }

  lemma TwoEvents(m: Store, e: Event, f: Event)
    ensures ApplyAll(m, [e, f]) == Apply(Apply(m, e), f)
  {
    hide Apply;
    OneEvent(m, e);
    assert [e, f][..1] == [e];
  }

  lemma PinView(s: Sys, g: nat, mode: Mode, key: Key)
    requires SysInv(s) && Enabled(s, Pin(g, mode, key))
    ensures View(Fetch(s.pool, key).0) ==
            if key in s.pool.table then View(s.pool) else Apply(View(s.pool), Save(VictimKeys(s.pool)))
    ensures Fetch(s.pool, key).1.None? ==> Fetch(s.pool, key).0 == s.pool
  {
    hide Coupled, Synced, WritersPinned, GuardsOn, Writers, CommittedShown, PinsCounted, Fetch, View, Apply, SameShown, WithSaved;
    FetchKeeps(s.pool, key, Writers(s.guards));
    var q := Fetch(s.pool, key).0;
    if key in s.pool.table {
      NothingSaved(s.pool);
      SameView(s.pool, q);
    } else {
      SavedView(s.pool, q, VictimKeys(s.pool));
    }
  }

  lemma CreateView(s: Sys, g: nat, file: nat)
    requires SysInv(s) && Enabled(s, Create(g, file))
    ensures var (q, v) := NewPage(s.pool, file);
            View(q) == if v.None? then View(s.pool)
                       else Apply(Apply(View(s.pool), Save(VictimKeys(s.pool))), Fresh(Key(file, s.pool.next)))
    ensures NewPage(s.pool, file).1.Some? ==> NewPage(s.pool, file).1.value.1 == s.pool.next
  {
    hide Coupled, Synced, WritersPinned, GuardsOn, Writers, CommittedShown, PinsCounted, NewPage, Shown;
    NewPageKeeps(s.pool, file, Writers(s.guards));
    var (q, v) := NewPage(s.pool, file);
    if v.Some? {
      FreshView(s.pool, q, VictimKeys(s.pool), Key(file, s.pool.next));
    }
  }

  lemma FreshView(p: Pool, q: Pool, keys: set<Key>, key: Key)
    requires SameShown(p, q) && q.disk == WithSaved(p, keys)[key := ZeroPage()] && key !in p.disk
    requires Shown(q, key) == ZeroPage()
    ensures View(q) == Apply(Apply(View(p), Save(keys)), Fresh(key))
  {
    hide Shown, ZeroPage, SameShown;
    FreshContents(p, q, keys, key);
    var m := WithSaved(p, keys);
    assert Apply(View(p), Save(keys)).disk == m by {
      assert forall k :: k in p.disk ==> k in Contents(p) && Contents(p)[k] == Shown(p, k);
    }
  }

  lemma FreshContents(p: Pool, q: Pool, keys: set<Key>, key: Key)
    requires SameShown(p, q) && q.disk == WithSaved(p, keys)[key := ZeroPage()] && key !in p.disk
    requires Shown(q, key) == ZeroPage()
    ensures Contents(q) == Contents(p)[key := ZeroPage()]
  {
    hide Shown, ZeroPage;
    assert forall k :: k in q.disk <==> k in p.disk || k == key;
  }

  lemma DiscardView(s: Sys, key: Key)
    requires SysInv(s)
    ensures DeletePage(s.pool, key).Some?
    ensures View(DeletePage(s.pool, key).value.0) ==
            if Deletable(s.pool, key) then Apply(View(s.pool), Discard(key)) else View(s.pool)
  {
    hide Coupled, Synced, WritersPinned, GuardsOn, Writers, CommittedShown, PinsCounted, DeletePage, Shown;
    DeleteKeeps(s.pool, key, Writers(s.guards));
    DeleteShows(s.pool, key, Writers(s.guards));
    if key in s.pool.table {
      TableFact(s.pool, key);
    }
  }

  lemma PutView(s: Sys, g: nat, data: PageBytes)
    requires SysInv(s) && Enabled(s, Overwrite(g, data))
    ensures View(Write(s.pool, s.guards[g].frame, data)) == Apply(View(s.pool), Put(s.guards[g].key, data))
  {
    hide Coupled, Synced, WritersPinned, GuardsOn, BeingWritten, Shown, CommittedShown, PinsCounted;
    assert s.guards[g].frame in Writers(s.guards);
    hide Writers;
    WriteKeeps(s.pool, s.guards[g].frame, data, Writers(s.guards));
    GuardKey(s, g);
  }

  lemma DropView(s: Sys, g: nat)
    requires SysInv(s) && Enabled(s, Drop(g))
    ensures Defined(s)
    ensures View(After(s, Drop(g)).value.pool) == View(s.pool)
  {
    hide Coupled, Synced, WritersPinned, GuardsOn, CommittedShown, PinsCounted, Unpin, Defined, SameShown, View;
    InvDefined(s);
    var u := s.guards[g];
    GuardKey(s, g);
    UnpinCoupled(s.pool, u.key, u.mode == Exclusive);
    SameView(s.pool, Unpin(s.pool, u.key, u.mode == Exclusive).0);
  }

  lemma FlushView(s: Sys, key: Key)
    requires SysInv(s)
    ensures View(Flush(s.pool, key).0) ==
            if key in s.pool.table then Apply(View(s.pool), Save({key})) else View(s.pool)
  {
    hide Coupled, Synced, WritersPinned, GuardsOn, Writers, CommittedShown, PinsCounted, WriteBack, SameShown, View, Apply, WithSaved;
    if key in s.pool.table {
      TableFact(s.pool, key);
      WriteBackKeeps(s.pool, s.pool.table[key], Writers(s.guards));
      SavedView(s.pool, WriteBack(s.pool, s.pool.table[key]), {key});
    }
  }

  lemma FlushAllView(s: Sys)
    requires SysInv(s)
    ensures View(FlushFirst(s.pool, |s.pool.frames|)) == Apply(View(s.pool), Save(DirtyKeys(s.pool, |s.pool.frames|)))
  {
    hide Coupled, Synced, WritersPinned, GuardsOn, Writers, CommittedShown, PinsCounted, FlushFirst, SameShown, View, Apply, WithSaved;
    FlushFirstKeeps(s.pool, |s.pool.frames|, Writers(s.guards));
    SavedView(s.pool, FlushFirst(s.pool, |s.pool.frames|), DirtyKeys(s.pool, |s.pool.frames|));
  }

  /** Each step changes what is shown and what is on disk by exactly its events. */
  lemma StepTransparent(s: Sys, step: Step)
    requires SysInv(s) && Enabled(s, step)
    ensures Defined(s) && After(s, step).Some?
    ensures View(After(s, step).value.pool) == ApplyAll(View(s.pool), Events(s, step))
  {
    hide SysInv, Defined, View, Apply, ApplyAll, Coupled, Fetch, NewPage, FlushFirst, DeletePage, Unpin, Flush;
    hide VictimKeys, DirtyKeys, Deletable, DropsUnsaved, Write;
    StepKeeps(s, step);
    NoEvent(View(s.pool));
    match step {
      case Pin(g, mode, key) =>
        PinView(s, g, mode, key);
        OneEvent(View(s.pool), Save(VictimKeys(s.pool)));
      case Create(g, file) =>
        CreateView(s, g, file);
        TwoEvents(View(s.pool), Save(VictimKeys(s.pool)), Fresh(Key(file, s.pool.next)));
      case Lock(g) =>
      case Overwrite(g, data) =>
        PutView(s, g, data);
        OneEvent(View(s.pool), Put(s.guards[g].key, data));
      case Unlock(g) =>
      case Drop(g) => DropView(s, g);
      case FlushPage(key) =>
        FlushView(s, key);
        OneEvent(View(s.pool), Save({key}));
      case FlushAll =>
        FlushAllView(s);
        OneEvent(View(s.pool), Save(DirtyKeys(s.pool, |s.pool.frames|)));
      case DeleteKey(key) =>
        DiscardView(s, key);
        OneEvent(View(s.pool), Discard(key));
    }
  }

  lemma {:induction false} EventsConcat(m: Store, a: seq<Event>, b: seq<Event>)
    ensures ApplyAll(m, a + b) == ApplyAll(ApplyAll(m, a), b)
  {
    hide Apply;
    if b == [] {
      assert a + b == a;
    } else {
      EventsConcat(m, a, b[..|b| - 1]);
      assert (a + b)[..|a + b| - 1] == a + b[..|b| - 1];
    }
  }

  /** Cache transparency: over every run, what the cache shows and what is on disk
      are what the run's events make of a plain store that has no cache. */
  lemma {:induction false} CacheIsTransparent(s: Sys, steps: seq<Step>, t: Sys)
    requires SysInv(s) && Reaches(s, steps, t)
    ensures View(t.pool) == ApplyAll(View(s.pool), Trace(s, steps, t))
    decreases |steps|
  {
    hide SysInv, After, Enabled, Defined, View, Events, ApplyAll;
    if steps != [] {
      StepKeeps(s, steps[0]);
      StepTransparent(s, steps[0]);
      var u := After(s, steps[0]).value;
      CacheIsTransparent(u, steps[1..], t);
      EventsConcat(View(s.pool), Events(s, steps[0]), Trace(u, steps[1..], t));
    } else {
      NoEvent(View(s.pool));
    }
  }
}
