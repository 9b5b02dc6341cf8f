/** The adaptive replacement policy on values: its state, its four operations,
    and the invariants they keep. */
module ArcPolicy {
  import opened Config

  const INVALID_FRAME_ID := 0xFFFF_FFFF

  datatype Tag = Mru | Mfu | MruGhost | MfuGhost

  datatype Status = Status(page: nat, frame: nat, evictable: bool, tag: Tag)

  /** Two live lists of frames, two ghost lists of pages, front is most recent.
      `size` counts the evictable frames, `target` is the wanted size of `mru`. */
  datatype Arc = Arc(
    mru: seq<nat>, mfu: seq<nat>, mruGhost: seq<nat>, mfuGhost: seq<nat>,
    alive: map<nat, Status>, ghosts: map<nat, Status>,
    size: int, target: nat, cap: nat)

  // ---------------------------------------------------------------- operations

  function Without(s: seq<nat>, x: nat): (r: seq<nat>)
    ensures forall y :: y in r <==> y in s && y != x
    ensures |r| <= |s|
    ensures x in s ==> |r| < |s|
    ensures x !in s ==> r == s
  {
    if s == [] then [] else (if s[0] == x then [] else [s[0]]) + Without(s[1..], x)
  }

  predicate Evictable(alive: map<nat, Status>, f: nat) {
    f in alive && alive[f].evictable
  }

  /** Index of the least recently used evictable frame of a live list, or -1. */
  function LastEvictable(live: seq<nat>, alive: map<nat, Status>): (i: int)
    ensures -1 <= i < |live|
    ensures i >= 0 ==> Evictable(alive, live[i])
    ensures forall j :: i < j < |live| ==> !Evictable(alive, live[j])
  {
    if |live| == 0 then -1
    else if Evictable(alive, live[|live| - 1]) then |live| - 1
    else LastEvictable(live[..|live| - 1], alive)
  }

  function Cut(s: seq<nat>, i: nat): seq<nat>
    requires i < |s|
  {
    s[..i] + s[i + 1..]
  }

  /** Demotes the least recent evictable frame of one live list to its ghost list. */
  function TryEvict(a: Arc, fromMru: bool): (r: (Arc, Option<nat>))
    ensures r.1.Some? ==> Evictable(a.alive, r.1.value) && r.0.alive == a.alive - {r.1.value}
    ensures r.1.None? ==> r.0 == a
  {
    var live := if fromMru then a.mru else a.mfu;
    var i := LastEvictable(live, a.alive);
    if i < 0 then (a, None)
    else
      var f := live[i];
      var page := a.alive[f].page;
      var status := a.alive[f].(tag := if fromMru then MruGhost else MfuGhost, frame := INVALID_FRAME_ID);
      var b := a.(alive := a.alive - {f}, ghosts := a.ghosts[page := status], size := a.size - 1);
      (if fromMru then b.(mru := Cut(a.mru, i), mruGhost := [page] + a.mruGhost)
       else b.(mfu := Cut(a.mfu, i), mfuGhost := [page] + a.mfuGhost),
       Some(f))
  }

  /** Evicts from the side that is over its target, or else from the other. */
  function Evict(a: Arc): (r: (Arc, Option<nat>))
    ensures r.1.Some? ==> Evictable(a.alive, r.1.value) && r.0.alive == a.alive - {r.1.value}
    ensures r.1.None? ==> r.0 == a
  {
    if a.size == 0 then (a, None)
    else
      var first := |a.mru| > a.target;
      var (b, v) := TryEvict(a, first);
      if v.Some? then (b, v) else TryEvict(a, !first)
  }

  function Max1(n: nat): nat { if n == 0 then 1 else n }

  /** How far a ghost hit moves the target: the ratio of the ghost lists, at least 1. */
  function Ratio(x: nat, y: nat): (r: nat)
    ensures r >= 1
  {
    Max1(x / Max1(y))
  }

  function Promote(a: Arc, f: nat): Arc
    requires f in a.alive
  {
    var status := a.alive[f];
    var b := if status.tag.Mru? then a.(mru := Without(a.mru, f)) else a.(mfu := Without(a.mfu, f));
    b.(mfu := [f] + b.mfu, alive := a.alive[f := status.(tag := Mfu)])
  }

  /** A page remembered as a ghost comes back: adapt the target, enter `mfu`. */
  function Resurrect(a: Arc, f: nat, p: nat): Arc
    requires p in a.ghosts
  {
    var b1, b2 := |a.mruGhost|, |a.mfuGhost|;
    var b :=
      if a.ghosts[p].tag.MruGhost? then
        var t := a.target + Ratio(b2, b1);
        a.(target := if t < a.cap then t else a.cap, mruGhost := Without(a.mruGhost, p))
      else
        var delta := Ratio(b1, b2);
        a.(target := if a.target > delta then a.target - delta else 0, mfuGhost := Without(a.mfuGhost, p));
    b.(ghosts := a.ghosts - {p},
       mfu := [f] + a.mfu,
       alive := a.alive[f := Status(p, f, false, Mfu)])
  }

  /** Forgets one ghost if the lists are full. */
  function Trim(a: Arc): Arc {
    var t1, b1 := |a.mru|, |a.mruGhost|;
    if t1 + b1 == a.cap then
      if b1 > 0 then a.(mruGhost := a.mruGhost[..b1 - 1], ghosts := a.ghosts - {a.mruGhost[b1 - 1]}) else a
    else if t1 + b1 < a.cap && t1 + |a.mfu| + b1 + |a.mfuGhost| >= 2 * a.cap && a.mfuGhost != [] then
      var b2 := |a.mfuGhost|;
      a.(mfuGhost := a.mfuGhost[..b2 - 1], ghosts := a.ghosts - {a.mfuGhost[b2 - 1]})
    else a
  }

  function RecordAccess(a: Arc, f: nat, p: nat): Arc {
    if f in a.alive then Promote(a, f)
    else if p in a.ghosts then Resurrect(a, f, p)
    else
      var b := Trim(a);
      b.(mru := [f] + b.mru, alive := b.alive[f := Status(p, f, false, Mru)])
  }

  function SetEvictable(a: Arc, f: nat, e: bool): Arc {
    if f !in a.alive || a.alive[f].evictable == e then a
    else a.(alive := a.alive[f := a.alive[f].(evictable := e)], size := a.size + if e then 1 else -1)
  }

  /** Forgets a frame. `None` means the process was terminated, because the
      frame was not evictable. */
  function Remove(a: Arc, f: nat): Option<Arc> {
    if f !in a.alive then Some(a)
    else if !a.alive[f].evictable then None
    else
      var b := if a.alive[f].tag.Mru? then a.(mru := Without(a.mru, f)) else a.(mfu := Without(a.mfu, f));
      Some(b.(alive := a.alive - {f}, size := a.size - 1))
  }

  // ---------------------------------------------------------------- invariants

  ghost predicate NoDup(s: seq<nat>) {
    forall i, j :: 0 <= i < j < |s| ==> s[i] != s[j]
  }

  /** `l` lists exactly the entries of `m` tagged `tag`, each once. */
  ghost predicate Lists(l: seq<nat>, m: map<nat, Status>, tag: Tag) {
    && NoDup(l)
    && forall x :: x in l <==> x in m && m[x].tag == tag
  }

  /** The live lists hold exactly the live frames, each on the list it is tagged with. */
  ghost predicate LiveLists(a: Arc) {
    && Lists(a.mru, a.alive, Mru) && Lists(a.mfu, a.alive, Mfu)
    && forall f :: f in a.alive ==> a.alive[f].frame == f && (a.alive[f].tag == Mru || a.alive[f].tag == Mfu)
  }

  /** The same for the ghost lists and the remembered pages. */
  ghost predicate GhostLists(a: Arc) {
    && Lists(a.mruGhost, a.ghosts, MruGhost) && Lists(a.mfuGhost, a.ghosts, MfuGhost)
    && forall p :: p in a.ghosts ==> a.ghosts[p].page == p && (a.ghosts[p].tag == MruGhost || a.ghosts[p].tag == MfuGhost)
  }

  /** No page is in two frames, and none is both live and remembered. */
  ghost predicate PagesApart(a: Arc) {
    && (forall f, g :: f in a.alive && g in a.alive && f != g ==> a.alive[f].page != a.alive[g].page)
    && (forall f :: f in a.alive ==> a.alive[f].page !in a.ghosts)
  }

  ghost function EvictableSet(alive: map<nat, Status>): set<nat> {
    set f | f in alive && alive[f].evictable
  }

  ghost predicate Consistent(a: Arc) {
    && LiveLists(a) && GhostLists(a) && PagesApart(a)
    && a.size == |EvictableSet(a.alive)|
  }

  /** The bounds of adaptive replacement for capacity `cap`. */
  ghost predicate Bounded(a: Arc) {
    && (forall f :: f in a.alive ==> f < a.cap)
    && |a.mru| + |a.mruGhost| <= a.cap
    && |a.mru| + |a.mfu| + |a.mruGhost| + |a.mfuGhost| <= 2 * a.cap
    && a.target <= a.cap
  }

  ghost predicate Inv(a: Arc) {
    Consistent(a) && Bounded(a)
  }

  function Initial(cap: nat): Arc {
    Arc([], [], [], [], map[], map[], 0, 0, cap)
  }

  lemma InitialInv(cap: nat)
    ensures Inv(Initial(cap))
  {
    assert EvictableSet(map[]) == {};
  }

  // ---------------------------------------------------------------- list facts

  lemma {:induction false} WithoutNoDup(s: seq<nat>, x: nat)
    requires NoDup(s)
    ensures NoDup(Without(s, x))
    ensures x in s ==> |Without(s, x)| == |s| - 1
  {
    if s != [] {
      WithoutNoDup(s[1..], x);
      var r := Without(s[1..], x);
      assert forall j :: 0 <= j < |r| ==> r[j] in s[1..];
      assert s[0] !in s[1..];
      assert x in s <==> x == s[0] || x in s[1..];
    }
  }

  lemma {:induction false} CutIsWithout(s: seq<nat>, i: nat)
    requires NoDup(s) && i < |s|
    ensures Cut(s, i) == Without(s, s[i])
  {
    if i > 0 {
      CutIsWithout(s[1..], i - 1);
      assert Cut(s, i) == [s[0]] + Cut(s[1..], i - 1);
    } else {
      assert s[0] !in s[1..];
      assert Cut(s, 0) == s[1..];
    }
  }

  lemma {:induction false} Pigeonhole(s: seq<nat>, n: nat)
    requires NoDup(s) && forall x :: x in s ==> x < n
    ensures |s| <= n
    decreases n
  {
    if |s| > 0 {
      assert s[0] in s;
      WithoutNoDup(s, n - 1);
      Pigeonhole(Without(s, n - 1), n - 1);
    }
  }

  // ---------------------------------------------------------------- entries leave and enter lists

  lemma ListsDropped(l: seq<nat>, m: map<nat, Status>, tag: Tag, x: nat)
    requires Lists(l, m, tag)
    ensures Lists(Without(l, x), m - {x}, tag)
    ensures |Without(l, x)| == if x in m && m[x].tag == tag then |l| - 1 else |l|
    ensures !(x in m && m[x].tag == tag) ==> Without(l, x) == l
  {
    WithoutNoDup(l, x);
  }

  lemma ListsRetagged(l: seq<nat>, m: map<nat, Status>, tag: Tag, x: nat, st: Status)
    requires Lists(l, m, tag) && st.tag != tag
    ensures Lists(Without(l, x), m[x := st], tag)
    ensures |Without(l, x)| == if x in m && m[x].tag == tag then |l| - 1 else |l|
    ensures !(x in m && m[x].tag == tag) ==> Without(l, x) == l
  {
    WithoutNoDup(l, x);
  }

  lemma ListsSameTag(l: seq<nat>, m: map<nat, Status>, tag: Tag, x: nat, st: Status)
    requires Lists(l, m, tag) && x in m && m[x].tag == st.tag
    ensures Lists(l, m[x := st], tag)
  {
  }

  lemma ListsMember(l: seq<nat>, m: map<nat, Status>, tag: Tag, i: nat)
    requires Lists(l, m, tag) && i < |l|
    ensures l[i] in m && m[l[i]].tag == tag
    ensures Cut(l, i) == Without(l, l[i])
    ensures i == |l| - 1 ==> l[..i] == Without(l, l[i])
  {
    assert l[i] in l;
    CutIsWithout(l, i);
    assert i == |l| - 1 ==> l[..i] == Cut(l, i);
  }

  lemma ListsAdded(l: seq<nat>, m: map<nat, Status>, tag: Tag, x: nat, st: Status)
    requires Lists(l, m, tag) && st.tag == tag && !(x in m && m[x].tag == tag)
    ensures Lists([x] + l, m[x := st], tag)
  {
  }
}
