/** What a slotted page is for: over any history of insertions and deletions it
    behaves as a map from slot numbers to byte strings. */
module PageHistory {
  import opened Config
  import opened Bytes
  import opened PageLayout

  /** The live tuples of a page, by slot number. */
  function Contents(p: Page): map<nat, seq<byte>> {
    map k: nat | 0 <= k < |p.slots| && p.slots[k] != [] :: p.slots[k]
  }

  /** The tuple counter tells the number of live slots. */
  predicate Counted(p: Page) {
    p.count == LiveCount(p.slots)
  }

  lemma {:induction false} LiveCountBound(slots: seq<seq<byte>>)
    ensures LiveCount(slots) <= |slots|
    ensures LiveCount(slots) == 0 <==> forall k :: 0 <= k < |slots| ==> slots[k] == []
    ensures LiveCount(slots) == 0 ==> Live(slots) == 0
  {
    if |slots| > 0 {
      LiveCountBound(slots[..|slots| - 1]);
    }
  }

  /** A page whose slot array and live tuples fit in 4096 bytes. */
  predicate InCapacity(p: Page) {
    Usable(p) >= 0
  }

  /** Every slot was added when all others were live, and so has cost at least
      nine bytes. */
  const MAX_SLOTS := 452

  /** What a page without live tuples always has room for. */
  const SURE_ROOM := PAGE_SIZE - HEADER_SIZE - SLOT_SIZE * MAX_SLOTS

  predicate FewSlots(p: Page) {
    |p.slots| <= MAX_SLOTS
  }

  lemma {:induction false} LiveAtLeast(slots: seq<seq<byte>>)
    requires forall k :: 0 <= k < |slots| ==> slots[k] != []
    ensures Live(slots) >= |slots|
  {
    if |slots| > 0 {
      LiveAtLeast(slots[..|slots| - 1]);
    }
  }

  /** Insertion never takes a page beyond its most slots, nor does deletion. */
  lemma InsertFewSlots(p: Page, t: seq<byte>)
    requires FewSlots(p) && Fits(p, |t|)
    ensures FewSlots(Insert(p, t))
  {
    if FirstFree(p.slots) == |p.slots| {
      LiveAtLeast(p.slots);
    }
  }

  /** A page image that satisfies the byte-level invariant is within capacity. */
  lemma SoundInCapacity(l: Layout, s: PageBytes)
    requires Sound(l, s)
    ensures InCapacity(Meaning(l, s))
  {
  }

  /** An insertion binds one slot that was free, within capacity. The tuple
      counter stays right exactly if the tuple has at least one byte: an empty
      tuple is counted but its slot still looks deleted. */
  lemma InsertMeans(p: Page, t: seq<byte>)
    requires InCapacity(p) && Counted(p) && Fits(p, |t|)
    ensures FirstFree(p.slots) !in Contents(p)
    ensures t != [] ==> Contents(Insert(p, t)) == Contents(p)[FirstFree(p.slots) := t]
    ensures t == [] ==> Contents(Insert(p, t)) == Contents(p)
    ensures InCapacity(Insert(p, t))
    ensures Counted(Insert(p, t)) <==> t != []
    ensures Usable(Insert(p, t)) == Usable(p) - Cost(p, |t|)
  {
    hide Live, LiveCount;
    LiveCountBound(p.slots);
    LivePlace(p.slots, FirstFree(p.slots), t);
  }

  lemma DeleteMeans(p: Page, k: nat)
    requires InCapacity(p) && Counted(p) && k < |p.slots|
    ensures Contents(Delete(p, k)) == Contents(p) - {k}
    ensures InCapacity(Delete(p, k)) && Counted(Delete(p, k))
    ensures Usable(Delete(p, k)) == Usable(p) + |p.slots[k]|
  {
    LiveCountBound(p.slots);
    LiveUpdate(p.slots, k, []);
    LiveCountBound(p.slots[k := []]);
  }

  // ---------------------------------------------------------------- histories

  datatype Op = Ins(t: seq<byte>) | Del(k: nat)

  /** What one operation reports: a slot bound, a slot freed, or nothing. */
  datatype Effect = Bound(k: nat, t: seq<byte>) | Freed(k: nat) | Refused

  function Step(p: Page, op: Op): (Page, Effect) {
    match op
    case Ins(t) => if Fits(p, |t|) then (Insert(p, t), Bound(FirstFree(p.slots), t)) else (p, Refused)
    case Del(k) => if k < |p.slots| then (Delete(p, k), Freed(k)) else (p, Refused)
  }

  function Run(p: Page, ops: seq<Op>): (Page, seq<Effect>)
    decreases |ops|
  {
    if ops == [] then (p, [])
    else
      var (p', e) := Step(p, ops[0]);
      var (q, es) := Run(p', ops[1..]);
      (q, [e] + es)
  }

  /** A plain map updated by the reported effects. */
  function Replay(m: map<nat, seq<byte>>, es: seq<Effect>): map<nat, seq<byte>>
    decreases |es|
  {
    if es == [] then m
    else
      match es[0]
      case Bound(k, t) => Replay(m[k := t], es[1..])
      case Freed(k) => Replay(m - {k}, es[1..])
      case Refused => Replay(m, es[1..])
  }

  /** Over every history of non-empty tuples, the page holds exactly what a
      plain map would after the same reported effects, stays within capacity and
      counts its tuples correctly. */
  lemma {:induction false} HistoryRefinesMap(p: Page, ops: seq<Op>)
    requires InCapacity(p) && Counted(p)
    requires forall i :: 0 <= i < |ops| && ops[i].Ins? ==> ops[i].t != []
    ensures var (q, es) := Run(p, ops);
            InCapacity(q) && Counted(q) && Contents(q) == Replay(Contents(p), es)
    decreases |ops|
  {
    if ops != [] {
      match ops[0] {
        case Ins(t) => if Fits(p, |t|) { InsertMeans(p, t); }
        case Del(k) => if k < |p.slots| { DeleteMeans(p, k); }
      }
      HistoryRefinesMap(Step(p, ops[0]).0, ops[1..]);
    }
  }

  /** From an empty page on, no history reaches more than 452 slots. */
  lemma {:induction false} HistoryFewSlots(p: Page, ops: seq<Op>)
    requires FewSlots(p)
    ensures FewSlots(Run(p, ops).0)
    decreases |ops|
  {
    if ops != [] {
      if ops[0].Ins? && Fits(p, |ops[0].t|) {
        InsertFewSlots(p, ops[0].t);
      }
      HistoryFewSlots(Step(p, ops[0]).0, ops[1..]);
    }
  }

  lemma {:induction false} RunConcat(p: Page, a: seq<Op>, b: seq<Op>)
    ensures Run(p, a + b).0 == Run(Run(p, a).0, b).0
    decreases |a|
  {
    if a == [] {
      assert a + b == b;
    } else {
      assert (a + b)[1..] == a[1..] + b;
      RunConcat(Step(p, a[0]).0, a[1..], b);
    }
  }

  // ---------------------------------------------------------------- the most slots a page can get

  /** Page `id` with `d` deleted slots followed by `n` slots of one byte each. */
  function Striped(id: nat, d: nat, n: nat): Page {
    Page(id, INVALID_PAGE_ID, seq(d + n, i => if i < d then [] else [0]), n)
  }

  lemma {:induction false} StripedLive(id: nat, d: nat, n: nat)
    ensures Live(Striped(id, d, n).slots) == n && LiveCount(Striped(id, d, n).slots) == n
  {
    var slots := Striped(id, d, n).slots;
    if n > 0 {
      assert slots[..d + n - 1] == Striped(id, d, n - 1).slots;
      StripedLive(id, d, n - 1);
    } else {
      LiveCountBound(slots);
    }
  }

  lemma InsertStriped(id: nat, n: nat)
    requires n < MAX_SLOTS
    ensures Step(Striped(id, 0, n), Ins([0])).0 == Striped(id, 0, n + 1)
  {
    StripedLive(id, 0, n);
  }

  lemma DeleteStriped(id: nat, d: nat, n: nat)
    requires 0 < n <= MAX_SLOTS
    ensures Step(Striped(id, d, n), Del(d)).0 == Striped(id, d + 1, n - 1)
  {
  }

  function Inserts(n: nat): seq<Op> { seq(n, _ => Ins([0])) }

  function Deletes(d: nat, n: nat): seq<Op> { seq(n, i requires 0 <= i < n => Del(d + i)) }

  lemma {:induction false} RunInserts(id: nat, n: nat, k: nat)
    requires n + k <= MAX_SLOTS
    ensures Run(Striped(id, 0, n), Inserts(k)).0 == Striped(id, 0, n + k)
    decreases k
  {
    if k > 0 {
      InsertStriped(id, n);
      assert Inserts(k)[1..] == Inserts(k - 1);
      RunInserts(id, n + 1, k - 1);
    }
  }

  lemma {:induction false} RunDeletes(id: nat, d: nat, n: nat)
    requires n <= MAX_SLOTS
    ensures Run(Striped(id, d, n), Deletes(d, n)).0 == Striped(id, d + n, 0)
    decreases n
  {
    if n > 0 {
      DeleteStriped(id, d, n);
      assert Deletes(d, n)[1..] == Deletes(d + 1, n - 1);
      RunDeletes(id, d + 1, n - 1);
    }
  }

  /** Filling a page with one-byte tuples and deleting them all. */
  function FillAndDelete(): seq<Op> { Inserts(MAX_SLOTS) + Deletes(0, MAX_SLOTS) }

  lemma FillAndDeleteRuns(id: nat)
    ensures Run(Page(id, INVALID_PAGE_ID, [], 0), FillAndDelete()).0 == Striped(id, MAX_SLOTS, 0)
  {
    assert Page(id, INVALID_PAGE_ID, [], 0) == Striped(id, 0, 0);
    RunInserts(id, 0, MAX_SLOTS);
    RunDeletes(id, 0, MAX_SLOTS);
    RunConcat(Striped(id, 0, 0), Inserts(MAX_SLOTS), Deletes(0, MAX_SLOTS));
  }

  // ---------------------------------------------------------------- the 32-bit space check

  /** The space check as computed: the needed space is truncated to 32 bits. */
  predicate SpaceCheck(p: Page, size: nat) {
    Cost(p, size) % U32_LIMIT <= Usable(p)
  }

  /** The truncated check lets a tuple in exactly if it fits, except for sizes
      so large that the slot cost carries the sum past 32 bits. */
  lemma SpaceCheckExactIff(p: Page, size: nat)
    requires InCapacity(p) && size < U32_LIMIT
    ensures (SpaceCheck(p, size) <==> Fits(p, size)) <==>
            (Cost(p, size) < U32_LIMIT || Cost(p, size) - U32_LIMIT > Usable(p))
  {
  }

  /** An empty page accepts a tuple of 4294967288 bytes. */
  lemma SpaceCheckWraps()
    ensures SpaceCheck(Page(0, INVALID_PAGE_ID, [], 0), U32_LIMIT - SLOT_SIZE)
    ensures !Fits(Page(0, INVALID_PAGE_ID, [], 0), U32_LIMIT - SLOT_SIZE)
  {
  }
}
