/** Guards are what the steps of a run asked for, and a latch is granted exactly
    when nobody excludes it. */
module GuardHistory {
  import opened Config
  import opened PageLayout
  import opened ArcPolicy
  import ArcInvariant
  import opened BufferPool
  import opened PoolInvariant
  import opened GuardProtocol
  import opened GuardInvariant

  /** What was asked for a guard, and how far it has come since: the page is a
      given one, or a new one in some file. */
  datatype Claim = Claim(mode: Mode, key: Option<Key>, file: nat, phase: Phase)

  /** Read off the steps of a run alone: the last request for guard `g`, its later
      lock and unlock, and nothing after it was dropped. */
  function Claimed(steps: seq<Step>, g: nat): Option<Claim> {
    if steps == [] then None
    else
      var before := Claimed(steps[..|steps| - 1], g);
      match steps[|steps| - 1]
      case Pin(h, mode, key) => if h == g then Some(Claim(mode, Some(key), key.file, Waiting)) else before
      case Create(h, file) => if h == g then Some(Claim(Exclusive, None, file, Waiting)) else before
      case Lock(h) => if h == g && before.Some? then Some(before.value.(phase := Holding)) else before
      case Unlock(h) => if h == g && before.Some? then Some(before.value.(phase := Released)) else before
      case Drop(h) => if h == g then None else before
      case _ => before
  }

  ghost predicate Meets(u: Guard, c: Claim) {
    u.mode == c.mode && u.phase == c.phase && u.key.file == c.file && (c.key.Some? ==> u.key == c.key.value)
  }

  ghost predicate AsAsked(guards: map<nat, Guard>, steps: seq<Step>) {
    forall g :: g in guards ==> Claimed(steps, g).Some? && Meets(guards[g], Claimed(steps, g).value)
  }

  lemma ClaimedMore(steps: seq<Step>, step: Step, g: nat)
    ensures (steps + [step])[..|steps + [step]| - 1] == steps
    ensures (steps + [step])[|steps + [step]| - 1] == step
  {
  }

  lemma StepAsAsked(s: Sys, steps: seq<Step>, step: Step)
    requires Defined(s) && Enabled(s, step) && AsAsked(s.guards, steps)
    requires After(s, step).Some?
    ensures AsAsked(After(s, step).value.guards, steps + [step])
  {
    hide Fetch, NewPage, Unpin, Flush, FlushFirst, DeletePage, Defined, LatchFree, Write, Coupled;
    var t := After(s, step).value;
    forall g | g in t.guards
      ensures Claimed(steps + [step], g).Some? && Meets(t.guards[g], Claimed(steps + [step], g).value)
    {
      ClaimedMore(steps, step, g);
    }
  }

  lemma {:induction false} RunAsAsked(s: Sys, before: seq<Step>, steps: seq<Step>, t: Sys)
    requires AsAsked(s.guards, before) && Reaches(s, steps, t)
    ensures AsAsked(t.guards, before + steps)
    decreases |steps|
  {
    hide After, Enabled, Defined, AsAsked;
    if steps == [] {
      assert before + steps == before;
    } else {
      StepAsAsked(s, before, steps[0]);
      RunAsAsked(After(s, steps[0]).value, before + [steps[0]], steps[1..], t);
      assert before + [steps[0]] + steps[1..] == before + steps;
    }
  }

  /** In every reachable state each guard has the mode and the page that its last
      request in the run asked for, and the phase that its later steps brought it
      to. */
  lemma GuardsAreAsAsked(n: nat, steps: seq<Step>, s: Sys, g: nat)
    requires Reaches(Start(n), steps, s) && g in s.guards
    ensures Claimed(steps, g).Some? && Meets(s.guards[g], Claimed(steps, g).value)
  {
    RunAsAsked(Start(n), [], steps, s);
    assert [] + steps == steps;
  }

  // ---------------------------------------------------------------- which steps give and take guards

  ghost predicate Guarded(guards: map<nat, Guard>, f: nat) {
    exists h :: h in guards && guards[h].frame == f
  }

  /** Every frame has a guard. */
  ghost predicate NoFrameLeft(s: Sys) {
    forall f :: 0 <= f < |s.pool.frames| ==> Guarded(s.guards, f)
  }

  lemma PinnedByGuards(s: Sys)
    requires SysInv(s)
    ensures AllFramesPinned(s.pool) <==> NoFrameLeft(s)
  {
    hide Good, CommittedShown;
    forall f | 0 <= f < |s.pool.frames|
      ensures s.pool.frames[f].pins > 0 <==> Guarded(s.guards, f)
    {
      if s.pool.frames[f].pins > 0 {
        var h :| h in GuardsOn(s.guards, f);
        assert h in s.guards && s.guards[h].frame == f;
      } else {
        NoGuards(s.guards, f);
      }
    }
  }

  /** A pin gives its guard unless the page is not resident and every frame has a
      guard, an allocation unless every frame has one; only a drop takes a guard
      away. */
  lemma StepGuards(s: Sys, step: Step, h: nat)
    requires SysInv(s) && Enabled(s, step)
    ensures Defined(s) && After(s, step).Some?
    ensures h in After(s, step).value.guards <==>
            match step
            case Pin(g, _, key) => h in s.guards || (h == g && (key in s.pool.table || !NoFrameLeft(s)))
            case Create(g, _) => h in s.guards || (h == g && !NoFrameLeft(s))
            case Drop(g) => h in s.guards && h != g
            case _ => h in s.guards
  {
    hide SysInv, Defined, Fetch, NewPage, Unpin, Flush, FlushFirst, DeletePage, LatchFree, Write, NoFrameLeft, Good, AllFramesPinned;
    StepKeeps(s, step);
    PinnedByGuards(s);
    SysGood(s);
    match step {
      case Pin(g, mode, key) => PinFails(s.pool, key, Writers(s.guards));
      case Create(g, file) => CreateFails(s.pool, file, Writers(s.guards));
      case _ =>
    }
  }

  lemma SysGood(s: Sys)
    requires SysInv(s)
    ensures Good(s.pool, Writers(s.guards))
  {
  }

  lemma PinFails(p: Pool, key: Key, writers: set<nat>)
    requires Good(p, writers) && key in p.disk
    ensures Coupled(p) && (Fetch(p, key).1.None? <==> key !in p.table && AllFramesPinned(p))
  {
    hide Fetch, CoupledBut;
    FetchKeeps(p, key, writers);
  }

  lemma CreateFails(p: Pool, file: nat, writers: set<nat>)
    requires Good(p, writers) && p.next < INVALID_PAGE_ID
    ensures Coupled(p) && (NewPage(p, file).1.None? <==> AllFramesPinned(p))
  {
    hide NewPage, CoupledBut;
    NewPageKeeps(p, file, writers);
  }

  /** In every reachable state a guard may take its latch exactly if it waits for it
      and no other guard that holds its page excludes it: readers share a page, a
      writer has it alone. */
  lemma LockIff(n: nat, steps: seq<Step>, s: Sys, g: nat)
    requires Reaches(Start(n), steps, s) && g in s.guards
    ensures Enabled(s, Lock(g)) <==>
            && s.guards[g].phase == Waiting
            && forall h :: h in s.guards && h != g && s.guards[h].key == s.guards[g].key && s.guards[h].phase == Holding ==>
                 s.guards[h].mode == Shared && s.guards[g].mode == Shared
  {
    hide SysInv, Reaches;
    StartInvariant(n);
    RunsKeepInv(Start(n), steps, s);
    forall h | h in s.guards
      ensures s.guards[h].frame == s.guards[g].frame <==> s.guards[h].key == s.guards[g].key
    {
      GuardKey(s, h);
      GuardKey(s, g);
    }
  }

  /** In every reachable state, if the steps of the run asked for guard `g` for
      writing and have locked it, then no other guard that they have locked is on the
      same page. */
  lemma LockedWriterIsAlone(n: nat, steps: seq<Step>, s: Sys, g: nat, h: nat)
    requires Reaches(Start(n), steps, s) && g in s.guards && h in s.guards && g != h
    requires Claimed(steps, g).Some? && Claimed(steps, g).value.mode == Exclusive && Claimed(steps, g).value.phase == Holding
    requires Claimed(steps, h).Some? && Claimed(steps, h).value.phase == Holding
    ensures s.guards[g].key != s.guards[h].key
    ensures Claimed(steps, g).value.key.Some? ==> Claimed(steps, g).value.key != Claimed(steps, h).value.key
  {
    hide Reaches, Claimed;
    GuardsAreAsAsked(n, steps, s, g);
    GuardsAreAsAsked(n, steps, s, h);
    WriterIsAlone(n, steps, s, g, h);
  }

  /** In every reachable state a guard may write exactly if it was asked for writing
      and holds its latch, may let go of the latch exactly if it holds it, and of its
      pin exactly after that. */
  lemma StepsInOrder(n: nat, steps: seq<Step>, s: Sys, g: nat, data: PageBytes)
    requires Reaches(Start(n), steps, s) && g in s.guards
    ensures Claimed(steps, g).Some?
    ensures var c := Claimed(steps, g).value;
            && (Enabled(s, Overwrite(g, data)) <==> c.mode == Exclusive && c.phase == Holding)
            && (Enabled(s, Unlock(g)) <==> c.phase == Holding)
            && (Enabled(s, Drop(g)) <==> c.phase == Released)
  {
    hide Reaches, Claimed;
    GuardsAreAsAsked(n, steps, s, g);
  }

  /** Only the unlock of a write guard on a page changes what counts as its last
      completed write, or takes it off the lost pages; only a deletion of the page
      that throws away unsaved bytes makes it a lost one. */
  lemma RecordsChange(s: Sys, step: Step, k: Key)
    requires SysInv(s) && Enabled(s, step) && k in s.committed
    ensures Defined(s) && After(s, step).Some?
    ensures var t := After(s, step).value;
            && k in t.committed
            && (t.committed[k] != s.committed[k] || (k in s.lost && k !in t.lost) ==>
                  step.Unlock? && s.guards[step.g].mode == Exclusive && s.guards[step.g].key == k)
            && (step.Unlock? && s.guards[step.g].mode == Exclusive && s.guards[step.g].key == k ==> k !in t.lost)
            && (k !in s.lost && k in t.lost <==> k !in s.lost && step == DeleteKey(k) && DropsUnsaved(s.pool, k))
  {
    hide SysInv, Defined, Fetch, Unpin, Flush, FlushFirst, DeletePage, LatchFree, Write, DropsUnsaved, NewPage;
    StepKeeps(s, step);
    match step {
      case Create(_, file) => FreshKey(s, file);
      case _ =>
    }
  }

  lemma FreshKey(s: Sys, file: nat)
    requires SysInv(s) && s.pool.next < INVALID_PAGE_ID
    ensures Coupled(s.pool)
    ensures NewPage(s.pool, file).1.Some? ==> Key(file, NewPage(s.pool, file).1.value.1) !in s.committed
  {
    hide Coupled, NewPage, Synced, WritersPinned;
    SysGood(s);
    NewPageKeeps(s.pool, file, Writers(s.guards));
    assert s.committed.Keys == s.pool.disk.Keys;
  }

  /** Pool `q` is `p` after a guard in `mode` on frame `f` has been dropped: one pin
      less, dirty if the guard was for writing, and no other frame, page or order
      of eviction changed. */
  ghost predicate Left(p: Pool, f: nat, mode: Mode, q: Pool) {
    && f < |p.frames| && SameFramesBut(p, q, f)
    && p.frames[f].pins > 0
    && q.frames[f] == p.frames[f].(pins := p.frames[f].pins - 1, dirty := p.frames[f].dirty || mode == Exclusive)
    && q.disk == p.disk && q.table == p.table && q.free == p.free && ArcInvariant.SameLists(p.arc, q.arc)
  }

  lemma DropLeaves(s: Sys, g: nat, t: Sys)
    requires SysInv(s) && Enabled(s, Drop(g)) && Defined(s) && After(s, Drop(g)) == Some(t)
    ensures t.guards == s.guards - {g} && Left(s.pool, s.guards[g].frame, s.guards[g].mode, t.pool)
  {
    hide SysInv, Defined, Unpin, Coupled, SameShown, ArcInvariant.SameLists;
    GuardKey(s, g);
    SysGood(s);
    UnpinCoupled(s.pool, s.guards[g].key, s.guards[g].mode == Exclusive);
  }
}
