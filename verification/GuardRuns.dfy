/** Two runs of one writer and one reader: a deletion between them loses the
    completed write, unless the page was flushed before. */
module GuardRuns {
  import opened Config
  import opened PageLayout
  import opened ArcPolicy
  import opened BufferPool
  import opened PoolInvariant
  import opened GuardProtocol
  import opened GuardInvariant

  /** Create a page, write it, let go of it. */
  function WriteRun(file: nat, data: PageBytes): seq<Step> {
    [Create(0, file), Lock(0), Overwrite(0, data), Unlock(0), Drop(0)]
  }

  /** Delete the page, then read it. */
  function DeleteAndRead(key: Key): seq<Step> {
    [DeleteKey(key), Pin(1, Shared, key), Lock(1)]
  }

  lemma {:induction false} ReachesMore(s: Sys, steps: seq<Step>, t: Sys, step: Step)
    requires SysInv(s) && Reaches(s, steps, t) && Enabled(t, step)
    ensures SysInv(t) && Defined(t) && After(t, step).Some? && SysInv(After(t, step).value)
    ensures Reaches(s, steps + [step], After(t, step).value)
    decreases |steps|
  {
    hide SysInv, After, Enabled, Defined;
    if steps == [] {
      StepKeeps(t, step);
      var u := After(t, step).value;
      assert Reaches(u, [], u);
      assert [step][1..] == [];
    } else {
      StepKeeps(s, steps[0]);
      ReachesMore(After(s, steps[0]).value, steps[1..], t, step);
      assert (steps + [step])[1..] == steps[1..] + [step];
    }
  }

  /** The only guard is one on `key` in frame `f`; the cache holds `data` there. */
  ghost predicate Alone(s: Sys, g: nat, f: nat, key: Key, mode: Mode, phase: Phase, data: PageBytes) {
    && SysInv(s) && s.guards == map[g := Guard(f, key, mode, phase)]
    && f < |s.pool.frames| && KeyOf(s.pool.frames[f]) == key && s.pool.frames[f].data == data
    && key in s.pool.disk && s.pool.disk[key] == ZeroPage()
  }

  /** Nobody holds a guard; `key` shows `data`, and the disk has `saved`. */
  ghost predicate Idle(s: Sys, key: Key, data: PageBytes, saved: PageBytes) {
    && SysInv(s) && s.guards == map[] && |s.pool.frames| > 0
    && key in s.pool.disk && Shown(s.pool, key) == data && s.pool.disk[key] == saved
  }

  lemma CreateAlone(n: nat, file: nat) returns (t: Sys, f: nat)
    requires n > 0
    ensures Reaches(Start(n), [Create(0, file)], t)
    ensures Alone(t, 0, f, Key(file, 0), Exclusive, Waiting, ZeroPage())
  {
    hide SysInv, NewPage, Coupled, Synced, WritersPinned, SameShown, WithSaved;
    var s := Start(n);
    StartInvariant(n);
    assert Reaches(s, [], s);
    ReachesMore(s, [], s, Create(0, file));
    assert [] + [Create(0, file)] == [Create(0, file)];
    FreshPoolGood(n);
    NewPageKeeps(s.pool, file, {});
    assert s.pool.frames[0].pins == 0;
    t := After(s, Create(0, file)).value;
    f := t.guards[0].frame;
  }

  lemma GoodPool(s: Sys)
    requires SysInv(s)
    ensures Good(s.pool, Writers(s.guards))
  {
  }

  lemma LockAlone(s0: Sys, steps: seq<Step>, s: Sys, g: nat, f: nat, key: Key, mode: Mode, data: PageBytes) returns (t: Sys)
    requires SysInv(s0) && Reaches(s0, steps, s) && Alone(s, g, f, key, mode, Waiting, data)
    ensures Reaches(s0, steps + [Lock(g)], t) && Alone(t, g, f, key, mode, Holding, data)
    ensures t.committed == s.committed && t.lost == s.lost
  {
    hide SysInv, Reaches, Defined;
    ReachesMore(s0, steps, s, Lock(g));
    t := After(s, Lock(g)).value;
  }

  lemma OverwriteAlone(s0: Sys, steps: seq<Step>, s: Sys, f: nat, key: Key, data: PageBytes) returns (t: Sys)
    requires SysInv(s0) && Reaches(s0, steps, s) && Alone(s, 0, f, key, Exclusive, Holding, ZeroPage())
    ensures Reaches(s0, steps + [Overwrite(0, data)], t) && Alone(t, 0, f, key, Exclusive, Holding, data)
  {
    hide SysInv, Reaches, Defined;
    ReachesMore(s0, steps, s, Overwrite(0, data));
    t := After(s, Overwrite(0, data)).value;
  }

  lemma UnlockAlone(s0: Sys, steps: seq<Step>, s: Sys, f: nat, key: Key, data: PageBytes) returns (t: Sys)
    requires SysInv(s0) && Reaches(s0, steps, s) && Alone(s, 0, f, key, Exclusive, Holding, data)
    ensures Reaches(s0, steps + [Unlock(0)], t) && Alone(t, 0, f, key, Exclusive, Released, data)
    ensures key in t.committed && t.committed[key] == data
  {
    hide SysInv, Reaches, Defined;
    ReachesMore(s0, steps, s, Unlock(0));
    t := After(s, Unlock(0)).value;
  }

  /** The dropped page is dirty and nobody has it pinned. */
  lemma DropAlone(s0: Sys, steps: seq<Step>, s: Sys, f: nat, key: Key, data: PageBytes) returns (t: Sys)
    requires SysInv(s0) && Reaches(s0, steps, s) && Alone(s, 0, f, key, Exclusive, Released, data)
    ensures Reaches(s0, steps + [Drop(0)], t) && Idle(t, key, data, ZeroPage())
    ensures t.committed == s.committed
    ensures Deletable(t.pool, key) && t.pool.frames[t.pool.table[key]].dirty
  {
    hide SysInv, Reaches, Defined, Unpin, Coupled, SameShown;
    ReachesMore(s0, steps, s, Drop(0));
    t := After(s, Drop(0)).value;
    GuardKey(s, 0);
    OnePin(s, 0);
    GoodPool(s);
    UnpinCoupled(s.pool, key, true);
    assert t.guards == map[];
  }

  /** A lone guard's page has one pin. */
  lemma OnePin(s: Sys, g: nat)
    requires SysInv(s) && g in s.guards && s.guards.Keys == {g}
    ensures s.guards[g].frame < |s.pool.frames| && s.pool.frames[s.guards[g].frame].pins == 1
  {
    hide Good, CommittedShown;
    assert GuardsOn(s.guards, s.guards[g].frame) == {g};
  }

  /** Reading an idle page: the reader sees what is shown. */
  lemma ReadAlone(s0: Sys, steps: seq<Step>, s: Sys, key: Key, data: PageBytes) returns (t: Sys, f: nat)
    requires SysInv(s0) && Reaches(s0, steps, s)
    requires key in s.pool.disk && Idle(s, key, data, s.pool.disk[key])
    requires s.pool.frames[0].pins == 0
    ensures Reaches(s0, steps + [Pin(1, Shared, key)] + [Lock(1)], t)
    ensures t.committed == s.committed && t.lost == s.lost
    ensures t.guards == map[1 := Guard(f, key, Shared, Holding)]
    ensures f < |t.pool.frames| && t.pool.frames[f].data == data
  {
    hide SysInv, Reaches, Defined, Shown;
    var u;
    u, f := PinIdle(s0, steps, s, 1, Shared, key, data);
    ReachesMore(s0, steps + [Pin(1, Shared, key)], u, Lock(1));
    t := After(u, Lock(1)).value;
  }

  lemma PinIdle(s0: Sys, steps: seq<Step>, s: Sys, g: nat, mode: Mode, key: Key, data: PageBytes) returns (t: Sys, f: nat)
    requires SysInv(s0) && Reaches(s0, steps, s)
    requires key in s.pool.disk && Idle(s, key, data, s.pool.disk[key])
    requires s.pool.frames[0].pins == 0
    ensures SysInv(t) && Reaches(s0, steps + [Pin(g, mode, key)], t)
    ensures t.committed == s.committed && t.lost == s.lost
    ensures t.guards == map[g := Guard(f, key, mode, Waiting)]
    ensures f < |t.pool.frames| && t.pool.frames[f].data == data && KeyOf(t.pool.frames[f]) == key
    ensures key in t.pool.disk && (s.pool.disk[key] == data || key in s.pool.table ==> t.pool.disk[key] == s.pool.disk[key])
  {
    hide SysInv, Reaches, Defined, Shown, Fetch, Coupled, Synced, WritersPinned, SameShown, Used;
    ReachesMore(s0, steps, s, Pin(g, mode, key));
    GoodPool(s);
    FetchKeeps(s.pool, key, Writers(s.guards));
    t := After(s, Pin(g, mode, key)).value;
    f := t.guards[g].frame;
  }

  /** Without guards no frame is pinned. */
  lemma NoPins(s: Sys)
    requires SysInv(s) && s.guards == map[]
    ensures forall f :: 0 <= f < |s.pool.frames| ==> s.pool.frames[f].pins == 0
  {
    hide Good, CommittedShown;
    forall f | 0 <= f < |s.pool.frames|
      ensures s.pool.frames[f].pins == 0
    {
      assert GuardsOn(s.guards, f) == {};
    }
  }

  lemma Written(n: nat, file: nat, data: PageBytes) returns (t: Sys)
    requires n > 0
    ensures Reaches(Start(n), WriteRun(file, data), t)
    ensures var key := Key(file, 0);
            && Idle(t, key, data, ZeroPage()) && key in t.committed && t.committed[key] == data
            && Deletable(t.pool, key) && t.pool.frames[t.pool.table[key]].dirty
  {
    hide SysInv, Reaches, Shown;
    StartInvariant(n);
    var u, f := CreateAlone(n, file);
    var steps := [Create(0, file)];
    var v := LockAlone(Start(n), steps, u, 0, f, Key(file, 0), Exclusive, ZeroPage());
    steps := steps + [Lock(0)];
    var w := OverwriteAlone(Start(n), steps, v, f, Key(file, 0), data);
    steps := steps + [Overwrite(0, data)];
    var x := UnlockAlone(Start(n), steps, w, f, Key(file, 0), data);
    steps := steps + [Unlock(0)];
    t := DropAlone(Start(n), steps, x, f, Key(file, 0), data);
    assert steps + [Drop(0)] == WriteRun(file, data);
  }

  /** Deleting an idle page makes it show the disk. */
  lemma DeleteIdle(s0: Sys, steps: seq<Step>, s: Sys, key: Key, data: PageBytes, saved: PageBytes) returns (t: Sys)
    requires SysInv(s0) && Reaches(s0, steps, s) && Idle(s, key, data, saved) && Deletable(s.pool, key)
    ensures Reaches(s0, steps + [DeleteKey(key)], t) && Idle(t, key, saved, saved)
    ensures t.committed == s.committed
    ensures t.lost == if DropsUnsaved(s.pool, key) then s.lost + {key} else s.lost
  {
    hide SysInv, Reaches, Defined, DeletePage, DropsUnsaved, Coupled, Synced, WritersPinned, Shown;
    ReachesMore(s0, steps, s, DeleteKey(key));
    t := After(s, DeleteKey(key)).value;
    GoodPool(s);
    DeleteKeeps(s.pool, key, Writers(s.guards));
  }

  /** The failing run: Create, Lock, Overwrite, Unlock, Drop, DeleteKey, Pin, Lock.
      The reader holds its latch and sees zeros, not the completed write. */
  lemma DeletedWriteIsLost(n: nat, file: nat, data: PageBytes) returns (t: Sys)
    requires n > 0 && data != ZeroPage()
    ensures Reaches(Start(n), WriteRun(file, data) + DeleteAndRead(Key(file, 0)), t)
    ensures 1 in t.guards && t.guards[1].key == Key(file, 0) && t.guards[1].phase == Holding
    ensures t.guards[1].frame < |t.pool.frames| && t.pool.frames[t.guards[1].frame].data == ZeroPage()
    ensures Key(file, 0) in t.committed && t.committed[Key(file, 0)] == data && Key(file, 0) in t.lost
  {
    hide SysInv, Reaches;
    StartInvariant(n);
    var key, steps := Key(file, 0), WriteRun(file, data);
    var u := Written(n, file, data);
    var v := DeleteIdle(Start(n), steps, u, key, data, ZeroPage());
    NoPins(v);
    var f;
    t, f := ReadAlone(Start(n), steps + [DeleteKey(key)], v, key, ZeroPage());
    assert steps + [DeleteKey(key)] + [Pin(1, Shared, key)] + [Lock(1)] == steps + DeleteAndRead(key);
  }

  /** The same run with the page flushed before it is deleted: the reader sees the
      completed write. */
  lemma FlushedWriteSurvives(n: nat, file: nat, data: PageBytes) returns (t: Sys)
    requires n > 0
    ensures Reaches(Start(n), WriteRun(file, data) + [FlushPage(Key(file, 0))] + DeleteAndRead(Key(file, 0)), t)
    ensures 1 in t.guards && t.guards[1].key == Key(file, 0) && t.guards[1].phase == Holding
    ensures t.guards[1].frame < |t.pool.frames| && t.pool.frames[t.guards[1].frame].data == data
    ensures Key(file, 0) in t.committed && t.committed[Key(file, 0)] == data
  {
    hide SysInv, Reaches;
    StartInvariant(n);
    var key, steps := Key(file, 0), WriteRun(file, data);
    var u := Written(n, file, data);
    var v := FlushIdle(Start(n), steps, u, key, data, ZeroPage());
    steps := steps + [FlushPage(key)];
    var w := DeleteIdle(Start(n), steps, v, key, data, data);
    NoPins(w);
    var f;
    t, f := ReadAlone(Start(n), steps + [DeleteKey(key)], w, key, data);
    assert steps + [DeleteKey(key)] + [Pin(1, Shared, key)] + [Lock(1)] == steps + DeleteAndRead(key);
  }

  lemma FlushIdle(s0: Sys, steps: seq<Step>, s: Sys, key: Key, data: PageBytes, saved: PageBytes) returns (t: Sys)
    requires SysInv(s0) && Reaches(s0, steps, s) && Idle(s, key, data, saved) && Deletable(s.pool, key)
    ensures Reaches(s0, steps + [FlushPage(key)], t) && Idle(t, key, data, data) && Deletable(t.pool, key)
    ensures t.committed == s.committed && t.lost == s.lost
  {
    hide SysInv, Reaches, Defined, WriteBack;
    ReachesMore(s0, steps, s, FlushPage(key));
    t := After(s, FlushPage(key)).value;
    GoodPool(s);
    TableFact(s.pool, key);
    hide Coupled;
    WriteBackKeeps(s.pool, s.pool.table[key], Writers(s.guards));
  }

  /** Two write guards pinned on one page: the second waits for its latch while the
      first, which has it, can write. */
  lemma SecondWriterWaits(n: nat, file: nat, data: PageBytes) returns (t: Sys)
    requires n > 0
    ensures var key := Key(file, 0);
            && Reaches(Start(n), WriteRun(file, data) + [Pin(1, Exclusive, key), Lock(1), Pin(2, Exclusive, key)], t)
            && 1 in t.guards && 2 in t.guards && t.guards[1].key == t.guards[2].key == key
            && !Enabled(t, Lock(2))
            && forall d :: Enabled(t, Overwrite(1, d))
  {
    hide SysInv, Reaches, Shown;
    StartInvariant(n);
    var key, steps := Key(file, 0), WriteRun(file, data);
    var u := Written(n, file, data);
    NoPins(u);
    var v, f := PinIdle(Start(n), steps, u, 1, Exclusive, key, data);
    var w := LockAlone(Start(n), steps + [Pin(1, Exclusive, key)], v, 1, f, key, Exclusive, data);
    t := PinSecond(Start(n), steps + [Pin(1, Exclusive, key)] + [Lock(1)], w, f, key, data);
    assert steps + [Pin(1, Exclusive, key)] + [Lock(1)] + [Pin(2, Exclusive, key)] ==
           steps + [Pin(1, Exclusive, key), Lock(1), Pin(2, Exclusive, key)];
  }

  lemma PinSecond(s0: Sys, steps: seq<Step>, s: Sys, f: nat, key: Key, data: PageBytes) returns (t: Sys)
    requires SysInv(s0) && Reaches(s0, steps, s) && Alone(s, 1, f, key, Exclusive, Holding, data)
    ensures Reaches(s0, steps + [Pin(2, Exclusive, key)], t)
    ensures t.guards == map[1 := Guard(f, key, Exclusive, Holding), 2 := Guard(f, key, Exclusive, Waiting)]
  {
    hide SysInv, Reaches, Defined, Fetch, Coupled, Synced, WritersPinned, SameShown, WithSaved;
    ReachesMore(s0, steps, s, Pin(2, Exclusive, key));
    GoodPool(s);
    GuardKey(s, 1);
    FetchKeeps(s.pool, key, Writers(s.guards));
    t := After(s, Pin(2, Exclusive, key)).value;
    assert t.guards[2].frame == s.pool.table[key] == f;
  }
}
