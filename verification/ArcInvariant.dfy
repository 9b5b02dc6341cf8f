/** Each replacer operation keeps the invariants, and what eviction chooses. */
module ArcInvariant {
  import opened Config
  import opened ArcPolicy
  import Arithmetic

  // ---------------------------------------------------------------- counting evictable frames

  lemma CountDropped(alive: map<nat, Status>, f: nat)
    requires f in alive
    ensures |EvictableSet(alive - {f})| == |EvictableSet(alive)| - if alive[f].evictable then 1 else 0
  {
    assert EvictableSet(alive - {f}) == EvictableSet(alive) - {f};
  }

  lemma CountSet(alive: map<nat, Status>, f: nat, st: Status)
    ensures |EvictableSet(alive[f := st])| ==
            |EvictableSet(alive)| - (if f in alive && alive[f].evictable then 1 else 0) + (if st.evictable then 1 else 0)
  {
    var before, after := EvictableSet(alive), EvictableSet(alive[f := st]);
    if st.evictable {
      assert after == before + {f};
    } else {
      assert after == before - {f};
    }
  }

  // ---------------------------------------------------------------- evict

  lemma TryEvictKeeps(a: Arc, fromMru: bool)
    requires Inv(a)
    ensures var (b, v) := TryEvict(a, fromMru);
            && Inv(b)
            && (v.None? ==> b == a)
            && (v.Some? ==> && v.value in a.alive && a.alive[v.value].evictable
                            && b.alive == a.alive - {v.value} && b.size == a.size - 1
                            && b.ghosts.Keys == a.ghosts.Keys + {a.alive[v.value].page})
  {
    hide Lists, Without, EvictableSet, Cut;
    var live := if fromMru then a.mru else a.mfu;
    var i := LastEvictable(live, a.alive);
    if i >= 0 {
      var f := live[i];
      var page := a.alive[f].page;
      var (b, v) := TryEvict(a, fromMru);
      var st := b.ghosts[page];
      ListsMember(live, a.alive, if fromMru then Mru else Mfu, i);
      CountDropped(a.alive, f);
      assert LiveLists(b) by {
        ListsDropped(a.mru, a.alive, Mru, f);
        ListsDropped(a.mfu, a.alive, Mfu, f);
    }
      assert GhostLists(b) by {
        if fromMru {
          ListsAdded(a.mruGhost, a.ghosts, MruGhost, page, st);
          ListsRetagged(a.mfuGhost, a.ghosts, MfuGhost, page, st);
        } else {
          ListsAdded(a.mfuGhost, a.ghosts, MfuGhost, page, st);
          ListsRetagged(a.mruGhost, a.ghosts, MruGhost, page, st);
        }
      }
    }
  }

  lemma EvictKeeps(a: Arc)
    requires Inv(a)
    ensures var (b, v) := Evict(a);
            && Inv(b)
            && (v.None? ==> b == a)
            && (v.Some? ==> && v.value in a.alive && a.alive[v.value].evictable
                            && b.alive == a.alive - {v.value}
                            && b.ghosts.Keys == a.ghosts.Keys + {a.alive[v.value].page})
  {
    hide TryEvict, Inv;
    TryEvictKeeps(a, |a.mru| > a.target);
    TryEvictKeeps(a, !(|a.mru| > a.target));
  }

  // ---------------------------------------------------------------- record_access

  /** What the buffer pool guarantees of every access: the frame exists, a live
      frame keeps its page, and a page enters only one frame. */
  ghost predicate LegalAccess(a: Arc, f: nat, p: nat) {
    && f < a.cap
    && (f in a.alive ==> a.alive[f].page == p)
    && (forall g :: g in a.alive && a.alive[g].page == p ==> g == f)
  }

  lemma PromoteKeeps(a: Arc, f: nat)
    requires Inv(a) && f in a.alive
    ensures Inv(Promote(a, f))
  {
    hide Lists, Without, EvictableSet, Cut;
    var b := Promote(a, f);
    var st, rest := b.alive[f], a.alive - {f};
    CountSet(a.alive, f, st);
    assert rest[f := st] == a.alive[f := st];
    ListsRetagged(a.mru, a.alive, Mru, f, st);
    ListsDropped(a.mfu, a.alive, Mfu, f);
    ListsAdded(Without(a.mfu, f), rest, Mfu, f, st);
  }

  lemma ResurrectKeeps(a: Arc, f: nat, p: nat)
    requires Inv(a) && LegalAccess(a, f, p) && f !in a.alive && p in a.ghosts
    ensures Inv(Resurrect(a, f, p))
  {
    hide Lists, Without, EvictableSet, Cut;
    var st := Status(p, f, false, Mfu);
    CountSet(a.alive, f, st);
    ListsAdded(a.mfu, a.alive, Mfu, f, st);
    ListsRetagged(a.mru, a.alive, Mru, f, st);
    ListsDropped(a.mruGhost, a.ghosts, MruGhost, p);
    ListsDropped(a.mfuGhost, a.ghosts, MfuGhost, p);
  }

  /** All live frames fit in the pool; one that is not live leaves a place. */
  lemma LiveFit(a: Arc)
    requires Inv(a)
    ensures |a.mru| + |a.mfu| <= a.cap
    ensures forall f: nat :: f < a.cap && f !in a.alive ==> |a.mru| + |a.mfu| < a.cap
  {
    var all := a.mru + a.mfu;
    assert NoDup(all) by { AppendNoDup(a.mru, a.mfu); }
    Pigeonhole(all, a.cap);
    forall f: nat | f < a.cap && f !in a.alive
      ensures |all| < a.cap
    {
      AppendNoDup([f], all);
      Pigeonhole([f] + all, a.cap);
    }
  }

  lemma AppendNoDup(s: seq<nat>, t: seq<nat>)
    requires NoDup(s) && NoDup(t) && forall x :: x in s ==> x !in t
    ensures NoDup(s + t)
  {
    forall i, j | 0 <= i < |s| && 0 <= j < |t|
      ensures s[i] != t[j]
    {
      assert s[i] in s && t[j] in t;
    }
  }

  /** On a miss the two cases the code does not handle cannot arise: the recent
      lists never exceed the capacity, and when they reach it there is a ghost to
      drop. Likewise a full directory always has a ghost to drop. */
  lemma MissCases(a: Arc, f: nat, p: nat)
    requires Inv(a) && LegalAccess(a, f, p) && f !in a.alive
    ensures |a.mru| + |a.mruGhost| <= a.cap
    ensures |a.mru| + |a.mruGhost| == a.cap ==> a.mruGhost != []
    ensures |a.mru| + |a.mfu| + |a.mruGhost| + |a.mfuGhost| >= 2 * a.cap && |a.mru| + |a.mruGhost| < a.cap ==> a.mfuGhost != []
  {
    LiveFit(a);
  }

  lemma TrimKeeps(a: Arc, f: nat, p: nat)
    requires Inv(a) && LegalAccess(a, f, p) && f !in a.alive
    ensures Inv(Trim(a))
    ensures Trim(a).alive == a.alive && Trim(a).ghosts.Keys <= a.ghosts.Keys
    ensures var b := Trim(a);
            && |b.mru| + |b.mruGhost| < a.cap
            && |b.mru| + |b.mfu| + |b.mruGhost| + |b.mfuGhost| < 2 * a.cap
            && b.cap == a.cap
  {
    hide Lists, Without, EvictableSet, Cut;
    MissCases(a, f, p);
    LiveFit(a);
    if |a.mru| + |a.mruGhost| == a.cap {
      var dropped := a.mruGhost[|a.mruGhost| - 1];
      ListsMember(a.mruGhost, a.ghosts, MruGhost, |a.mruGhost| - 1);
      ListsDropped(a.mruGhost, a.ghosts, MruGhost, dropped);
      ListsDropped(a.mfuGhost, a.ghosts, MfuGhost, dropped);
    } else if a.mfuGhost != [] {
      var dropped := a.mfuGhost[|a.mfuGhost| - 1];
      ListsMember(a.mfuGhost, a.ghosts, MfuGhost, |a.mfuGhost| - 1);
      ListsDropped(a.mfuGhost, a.ghosts, MfuGhost, dropped);
      ListsDropped(a.mruGhost, a.ghosts, MruGhost, dropped);
    }
  }

  lemma EnterKeeps(b: Arc, f: nat, p: nat)
    requires Inv(b) && f !in b.alive && f < b.cap && p !in b.ghosts
    requires forall g :: g in b.alive ==> b.alive[g].page != p
    requires |b.mru| + |b.mruGhost| < b.cap && |b.mru| + |b.mfu| + |b.mruGhost| + |b.mfuGhost| < 2 * b.cap
    ensures Inv(b.(mru := [f] + b.mru, alive := b.alive[f := Status(p, f, false, Mru)]))
  {
    hide Lists, Without, EvictableSet, Cut;
    var st := Status(p, f, false, Mru);
    CountSet(b.alive, f, st);
    ListsAdded(b.mru, b.alive, Mru, f, st);
    ListsRetagged(b.mfu, b.alive, Mfu, f, st);
  }

  lemma RecordAccessKeeps(a: Arc, f: nat, p: nat)
    requires Inv(a) && LegalAccess(a, f, p)
    ensures var b := RecordAccess(a, f, p);
            && Inv(b)
            && b.alive.Keys == a.alive.Keys + {f}
            && b.alive[f].page == p
            && b.alive[f].evictable == (f in a.alive && a.alive[f].evictable)
            && (forall g :: g in a.alive && g != f ==> b.alive[g] == a.alive[g])
            && b.cap == a.cap
  {
    hide Inv, Trim;
    if f in a.alive {
      PromoteKeeps(a, f);
    } else if p in a.ghosts {
      ResurrectKeeps(a, f, p);
    } else {
      TrimKeeps(a, f, p);
      EnterKeeps(Trim(a), f, p);
    }
  }

  // ---------------------------------------------------------------- set_evictable, remove

  /** Lists, ghosts and target are the same. */
  ghost predicate SameLists(a: Arc, b: Arc) {
    && b.mru == a.mru && b.mfu == a.mfu && b.mruGhost == a.mruGhost && b.mfuGhost == a.mfuGhost
    && b.ghosts == a.ghosts && b.target == a.target
  }

  /** Frame `f` is gone from the live lists; order, ghosts and target are the same. */
  ghost predicate Forgotten(a: Arc, f: nat, b: Arc) {
    && b.alive == a.alive - {f}
    && b.mru == Without(a.mru, f) && b.mfu == Without(a.mfu, f)
    && b.mruGhost == a.mruGhost && b.mfuGhost == a.mfuGhost && b.ghosts == a.ghosts && b.target == a.target
  }

  lemma SetEvictableKeeps(a: Arc, f: nat, e: bool)
    requires Inv(a)
    ensures var b := SetEvictable(a, f, e);
            && Inv(b)
            && b.alive.Keys == a.alive.Keys
            && (forall g :: g in a.alive ==> b.alive[g].page == a.alive[g].page)
            && (forall g :: g in a.alive ==> b.alive[g].evictable == if g == f then e else a.alive[g].evictable)
            && b.cap == a.cap && SameLists(a, b)
  {
    hide Lists, EvictableSet;
    if f in a.alive {
      var st := a.alive[f].(evictable := e);
      CountSet(a.alive, f, st);
      ListsSameTag(a.mru, a.alive, Mru, f, st);
      ListsSameTag(a.mfu, a.alive, Mfu, f, st);
    }
  }

  /** A frame that is not live is on no live list. */
  lemma ListsAbsent(a: Arc, f: nat)
    requires Inv(a)
    ensures f !in a.alive ==> Without(a.mru, f) == a.mru && Without(a.mfu, f) == a.mfu
  {
    ListsDropped(a.mru, a.alive, Mru, f);
    ListsDropped(a.mfu, a.alive, Mfu, f);
  }

  lemma RemoveKeeps(a: Arc, f: nat)
    requires Inv(a)
    ensures Remove(a, f).None? <==> f in a.alive && !a.alive[f].evictable
    ensures Remove(a, f).Some? ==> Inv(Remove(a, f).value) && Forgotten(a, f, Remove(a, f).value)
                                   && Remove(a, f).value.cap == a.cap
  {
    hide Lists, Without, EvictableSet, Cut;
    ListsAbsent(a, f);
    if f in a.alive && a.alive[f].evictable {
      CountDropped(a.alive, f);
      ListsDropped(a.mru, a.alive, Mru, f);
      ListsDropped(a.mfu, a.alive, Mfu, f);
    }
  }

  // ---------------------------------------------------------------- what eviction chooses

  /** `f` is the least recently used evictable frame of list `l`. */
  ghost predicate LeastRecent(l: seq<nat>, alive: map<nat, Status>, f: nat) {
    exists i :: 0 <= i < |l| && l[i] == f && Evictable(alive, f) && forall j :: i < j < |l| ==> !Evictable(alive, l[j])
  }

  ghost predicate AllPinned(l: seq<nat>, alive: map<nat, Status>) {
    forall j :: 0 <= j < |l| ==> !Evictable(alive, l[j])
  }

  /** What an eviction from `a` to `b` does. It fails exactly if no frame is
      evictable. Otherwise it takes the least recent evictable frame of the side over
      its target, or of the other side if that one is all pinned, remembers its page
      on that side, and leaves order of the others and target as they are. */
  ghost predicate Evicted(a: Arc, b: Arc, v: Option<nat>) {
    && (v.None? <==> forall f :: f in a.alive ==> !a.alive[f].evictable)
    && (v.None? ==> b == a)
    && (v.Some? ==>
          && v.value in a.alive && a.alive[v.value].evictable && b.alive == a.alive - {v.value}
          && FromSide(a, v.value)
          && (if v.value in a.mru then b.mruGhost == [a.alive[v.value].page] + a.mruGhost && b.mfuGhost == a.mfuGhost
              else b.mfuGhost == [a.alive[v.value].page] + a.mfuGhost && b.mruGhost == a.mruGhost)
          && b.mru == Without(a.mru, v.value) && b.mfu == Without(a.mfu, v.value)
          && b.target == a.target)
  }

  ghost predicate FromSide(a: Arc, f: nat) {
    var (wanted, other) := if |a.mru| > a.target then (a.mru, a.mfu) else (a.mfu, a.mru);
    if AllPinned(wanted, a.alive) then LeastRecent(other, a.alive, f) else LeastRecent(wanted, a.alive, f)
  }

  /** One side's eviction. */
  ghost predicate TriedEvict(a: Arc, fromMru: bool, b: Arc, v: Option<nat>) {
    var live := if fromMru then a.mru else a.mfu;
    && (v.None? <==> AllPinned(live, a.alive))
    && (v.None? ==> b == a)
    && (v.Some? ==>
          && LeastRecent(live, a.alive, v.value)
          && v.value in a.alive && a.alive[v.value].evictable && b.alive == a.alive - {v.value}
          && (v.value in a.mru <==> fromMru)
          && (if fromMru then b.mruGhost == [a.alive[v.value].page] + a.mruGhost && b.mfuGhost == a.mfuGhost
              else b.mfuGhost == [a.alive[v.value].page] + a.mfuGhost && b.mruGhost == a.mruGhost)
          && b.mru == Without(a.mru, v.value) && b.mfu == Without(a.mfu, v.value)
          && b.target == a.target)
  }

  lemma TryEvictChooses(a: Arc, fromMru: bool)
    requires Inv(a)
    ensures TriedEvict(a, fromMru, TryEvict(a, fromMru).0, TryEvict(a, fromMru).1)
  {
    hide Lists, Without, EvictableSet, Cut;
    var live := if fromMru then a.mru else a.mfu;
    var i := LastEvictable(live, a.alive);
    if i >= 0 {
      ListsMember(live, a.alive, if fromMru then Mru else Mfu, i);
      SideOf(a, live[i]);
      ListsDropped(a.mru, a.alive, Mru, live[i]);
      ListsDropped(a.mfu, a.alive, Mfu, live[i]);
    }
  }

  /** A live frame is on the list that its tag names. */
  lemma SideOf(a: Arc, f: nat)
    requires Inv(a) && f in a.alive
    ensures f in a.mru <==> a.alive[f].tag == Mru
    ensures f in a.mfu <==> a.alive[f].tag == Mfu
    ensures f in a.mru || f in a.mfu
  {
  }

  /** The count is zero exactly if no frame is evictable. */
  lemma NoneEvictable(a: Arc)
    requires Inv(a)
    ensures a.size == 0 <==> forall f :: f in a.alive ==> !a.alive[f].evictable
    ensures a.size == 0 <==> AllPinned(a.mru, a.alive) && AllPinned(a.mfu, a.alive)
  {
    hide Lists;
    if a.size == 0 {
      assert EvictableSet(a.alive) == {};
      assert forall f :: f in a.alive && a.alive[f].evictable ==> f in EvictableSet(a.alive);
    } else {
      var f :| f in EvictableSet(a.alive);
      SideOf(a, f);
      if f in a.mru {
        var j :| 0 <= j < |a.mru| && a.mru[j] == f;
      } else {
        var j :| 0 <= j < |a.mfu| && a.mfu[j] == f;
      }
    }
  }

  lemma EvictChooses(a: Arc)
    requires Inv(a)
    ensures Evicted(a, Evict(a).0, Evict(a).1)
  {
    hide TryEvict, Inv, AllPinned, LeastRecent, Without;
    NoneEvictable(a);
    TryEvictChooses(a, true);
    TryEvictChooses(a, false);
  }

  /** An access makes its frame the most recent: of `mfu` for a page seen
      before, of `mru` for a new one. A ghost hit moves the target by at least one
      towards the side that was missed, within the capacity. */
  ghost predicate Accessed(a: Arc, f: nat, p: nat, b: Arc) {
    && b.alive.Keys == a.alive.Keys + {f} && b.alive[f].page == p
    && b.alive[f].evictable == (f in a.alive && a.alive[f].evictable)
    && (forall g :: g in a.alive && g != f ==> b.alive[g] == a.alive[g])
    && Touched(a, f, p, b)
  }

  /** Lists and target after an access. */
  ghost predicate Touched(a: Arc, f: nat, p: nat, b: Arc) {
    && (if f in a.alive || p in a.ghosts then b.mfu == [f] + Without(a.mfu, f) && b.mru == Without(a.mru, f)
        else b.mru == [f] + a.mru && b.mfu == a.mfu)
    && TargetMoved(a, f, p, b) && GhostsAfter(a, f, p, b)
  }

  /** The step due on a hit in a ghost list of `own` pages, with `other` pages in
      the other one: how many times `own` goes into `other`, and at least one. */
  ghost predicate Due(step: nat, own: nat, other: nat) {
    if other < own then step == 1 else step * own <= other < (step + 1) * own
  }

  /** A hit among the ghosts of `mru` raises the target by the step due, up to the
      capacity; one among the ghosts of `mfu` lowers it by the step due, down to
      zero; nothing else moves it. */
  ghost predicate TargetMoved(a: Arc, f: nat, p: nat, b: Arc) {
    var b1, b2 := |a.mruGhost|, |a.mfuGhost|;
    if f in a.alive || p !in a.ghosts then b.target == a.target
    else if a.ghosts[p].tag == MruGhost then
      exists d: nat :: Due(d, b1, b2) && b.target == (if a.target + d <= a.cap then a.target + d else a.cap)
    else
      exists d: nat :: Due(d, b2, b1) && b.target == (if d <= a.target then a.target - d else 0)
  }

  lemma RatioIsDue(own: nat, other: nat)
    requires own > 0
    ensures Due(Ratio(other, own), own, other)
  {
    var q := other / own;
    assert q * own <= other < q * own + own;
    assert (q + 1) * own == q * own + own;
    if other < own {
      assert q == 0 by { Arithmetic.SmallMultiple(q, own); }
    } else if q == 0 {
      assert false;
    }
  }

  /** There is only one step due, and it is at least one. */
  lemma DueIsUnique(d: nat, e: nat, own: nat, other: nat)
    requires own > 0 && Due(d, own, other) && Due(e, own, other)
    ensures d == e >= 1
  {
    TimesMonotone(d + 1, e, own);
    TimesMonotone(e + 1, d, own);
    TimesMonotone(d + 1, 1, own);
  }

  lemma TimesMonotone(a: nat, b: nat, m: nat)
    ensures a <= b ==> a * m <= b * m
  {
    if a <= b {
      assert b * m == a * m + (b - a) * m;
    }
  }

  /** A hit keeps the ghosts, a ghost hit takes its page from them, and a miss
      forgets one only if its directory is full, and then the least recent one. */
  ghost predicate GhostsAfter(a: Arc, f: nat, p: nat, b: Arc) {
    var recent := |a.mru| + |a.mruGhost|;
    if f in a.alive then b.mruGhost == a.mruGhost && b.mfuGhost == a.mfuGhost
    else if p in a.ghosts then b.mruGhost == Without(a.mruGhost, p) && b.mfuGhost == Without(a.mfuGhost, p)
    else
      && b.mruGhost <= a.mruGhost && b.mfuGhost <= a.mfuGhost
      && |a.mruGhost| - |b.mruGhost| == (if recent == a.cap then 1 else 0)
      && |a.mfuGhost| - |b.mfuGhost| ==
           (if recent < a.cap && recent + |a.mfu| + |a.mfuGhost| == 2 * a.cap then 1 else 0)
  }

  lemma HitPlaces(a: Arc, f: nat, p: nat)
    requires Inv(a) && f in a.alive
    ensures var b := Promote(a, f);
            && b.mfu == [f] + Without(a.mfu, f) && b.mru == Without(a.mru, f)
            && TargetMoved(a, f, p, b) && GhostsAfter(a, f, p, b)
  {
    hide Lists, Without, EvictableSet;
    ListsDropped(a.mru, a.alive, Mru, f);
    ListsDropped(a.mfu, a.alive, Mfu, f);
  }

  /** A ghost hit moves the target by the step due. */
  lemma GhostHitDue(a: Arc, f: nat, p: nat)
    requires Inv(a) && f !in a.alive && p in a.ghosts
    ensures TargetMoved(a, f, p, Resurrect(a, f, p))
  {
    hide Without, EvictableSet, Ratio, Due;
    if a.ghosts[p].tag == MruGhost {
      assert p in a.mruGhost;
      RatioIsDue(|a.mruGhost|, |a.mfuGhost|);
    } else {
      assert p in a.mfuGhost;
      RatioIsDue(|a.mfuGhost|, |a.mruGhost|);
    }
  }

  lemma GhostHitPlaces(a: Arc, f: nat, p: nat)
    requires Inv(a) && f !in a.alive && p in a.ghosts
    ensures var b := Resurrect(a, f, p);
            && b.mfu == [f] + Without(a.mfu, f) && b.mru == Without(a.mru, f)
            && TargetMoved(a, f, p, b) && GhostsAfter(a, f, p, b)
  {
    hide Lists, Without, EvictableSet, Ratio, TargetMoved;
    ListsDropped(a.mru, a.alive, Mru, f);
    ListsDropped(a.mfu, a.alive, Mfu, f);
    ListsDropped(a.mruGhost, a.ghosts, MruGhost, p);
    ListsDropped(a.mfuGhost, a.ghosts, MfuGhost, p);
    GhostHitDue(a, f, p);
  }

  lemma MissForgetsOldest(a: Arc, f: nat, p: nat)
    requires Inv(a) && LegalAccess(a, f, p) && f !in a.alive && p !in a.ghosts
    ensures var b := RecordAccess(a, f, p);
            && b.mru == [f] + a.mru && b.mfu == a.mfu
            && TargetMoved(a, f, p, b) && GhostsAfter(a, f, p, b)
  {
    MissCases(a, f, p);
    hide Lists;
  }

  lemma AccessPlaces(a: Arc, f: nat, p: nat)
    requires Inv(a) && LegalAccess(a, f, p)
    ensures Accessed(a, f, p, RecordAccess(a, f, p))
  {
    hide Inv, LegalAccess, Without, Promote, Resurrect, Trim, TargetMoved, GhostsAfter;
    RecordAccessKeeps(a, f, p);
    if f in a.alive {
      HitPlaces(a, f, p);
    } else if p in a.ghosts {
      GhostHitPlaces(a, f, p);
    } else {
      MissForgetsOldest(a, f, p);
    }
  }

  // ---------------------------------------------------------------- whole runs

  datatype ArcOp = Access(f: nat, p: nat) | Set(f: nat, e: bool) | EvictOne | Forget(f: nat)

  function Step(a: Arc, op: ArcOp): Option<Arc> {
    match op
    case Access(f, p) => Some(RecordAccess(a, f, p))
    case Set(f, e) => Some(SetEvictable(a, f, e))
    case EvictOne => Some(Evict(a).0)
    case Forget(f) => Remove(a, f)
  }

  /** A run that respects the replacer's contract and ends in `b`. */
  ghost predicate Reaches(a: Arc, ops: seq<ArcOp>, b: Arc)
    decreases |ops|
  {
    if ops == [] then a == b
    else
      && (ops[0].Access? ==> LegalAccess(a, ops[0].f, ops[0].p))
      && Step(a, ops[0]).Some?
      && Reaches(Step(a, ops[0]).value, ops[1..], b)
  }

  /** Every state a run can reach has consistent lists, maps, tags and count, and
      respects the capacity bounds. */
  lemma {:induction false} RunsKeepInv(a: Arc, ops: seq<ArcOp>, b: Arc)
    requires Inv(a) && Reaches(a, ops, b)
    ensures Inv(b)
    decreases |ops|
  {
    hide Inv, RecordAccess, SetEvictable, Evict, Remove, LegalAccess;
    if ops != [] {
      match ops[0] {
        case Access(f, p) => RecordAccessKeeps(a, f, p);
        case Set(f, e) => SetEvictableKeeps(a, f, e);
        case EvictOne => EvictKeeps(a);
        case Forget(f) => RemoveKeeps(a, f);
      }
      RunsKeepInv(Step(a, ops[0]).value, ops[1..], b);
    }
  }
}
