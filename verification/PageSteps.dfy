/** Why each in-place step of the slotted page keeps the page invariant and
    what it does to the tuples, on decoded fields and page bytes. */
module PageSteps {
  import opened Config
  import opened Bytes
  import opened PageLayout

  /** Both images hold the same bytes from `from` on. */
  ghost predicate SameAbove(s: seq<byte>, s': seq<byte>, from: nat) {
    |s| == |s'| && forall x :: from <= x < |s| ==> s'[x] == s[x]
  }

  /** The `length` bytes of `t` are stored where `slot` says, at or above `p`. */
  ghost predicate Holds(slot: Slot, s: seq<byte>, p: nat, t: seq<byte>) {
    && |t| == slot.length
    && (t != [] ==> p <= slot.offset && slot.offset + |t| <= |s| && s[slot.offset..slot.offset + |t|] == t)
  }

  lemma HoldsFrame(slot: Slot, s: seq<byte>, s': seq<byte>, p: nat, p': nat, t: seq<byte>)
    requires Holds(slot, s, p, t) && p' <= p && SameAbove(s, s', p)
    ensures Holds(slot, s', p', t)
  {
  }

  /** Every slot holds its tuple: the connection between cells and bytes. */
  lemma CellsHold(l: Layout, s: PageBytes, r: seq<seq<byte>>)
    requires InBounds(l)
    ensures r == Cells(l, s) <==> |r| == |l.slots| && forall i :: 0 <= i < |r| ==> Holds(l.slots[i], s, l.free, r[i])
  {
    if |r| == |l.slots| && forall i :: 0 <= i < |r| ==> Holds(l.slots[i], s, l.free, r[i]) {
      assert forall i :: 0 <= i < |r| ==> r[i] == Cell(l, s, i);
    }
  }

  /** Changing header fields that describe no data leaves the tuples alone. */
  lemma RenamedSound(l: Layout, s: PageBytes, l': Layout, s': PageBytes)
    requires Sound(l, s) && l'.slots == l.slots && l'.free == l.free && l'.dead == l.dead
    requires SameAbove(s, s', l.free)
    ensures Sound(l', s') && Cells(l', s') == Cells(l, s)
  {
    hide Cell, Cells, Live;
    var r := Cells(l, s);
    CellsHold(l, s, r);
    forall i | 0 <= i < |r|
      ensures Holds(l'.slots[i], s', l'.free, r[i])
    {
      HoldsFrame(l.slots[i], s, s', l.free, l.free, r[i]);
    }
    CellsHold(l', s', r);
  }

  // ---------------------------------------------------------------- insertion

  /** Stored fields after putting `size` bytes below the free pointer for slot `k`. */
  function Allocated(l: Layout, k: nat, size: nat): Layout
    requires k <= |l.slots| && size <= l.free
  {
    l.(slots := Place(l.slots, k, Slot(l.free - size, size)),
       free := l.free - size,
       tuples := (l.tuples + 1) % U32_LIMIT)
  }

  lemma AllocatedInBounds(l: Layout, k: nat, size: nat)
    requires InBounds(l) && Disjoint(l) && k <= |l.slots|
    requires SlotAt(|Place(l.slots, k, Slot(0, 0))|) + size <= l.free
    ensures InBounds(Allocated(l, k, size)) && Disjoint(Allocated(l, k, size))
  {
  }

  /** Storing `t` below the free pointer keeps the page invariant and changes
      slot `k` alone: the bytes of every other tuple are where they were. */
  lemma AllocatedSound(l: Layout, s: PageBytes, s': PageBytes, k: nat, t: seq<byte>)
    requires Sound(l, s) && k <= |l.slots|
    requires k < |l.slots| ==> l.slots[k].length == 0
    requires SlotAt(|Place(l.slots, k, Slot(0, 0))|) + |t| <= l.free
    requires SameAbove(s, s', l.free)
    requires forall x :: 0 <= x < |t| ==> s'[l.free - |t| + x] == t[x]
    ensures Sound(Allocated(l, k, |t|), s')
    ensures Cells(Allocated(l, k, |t|), s') == Place(Cells(l, s), k, t)
  {
    hide Cell, Cells, Live;
    var l' := Allocated(l, k, |t|);
    AllocatedInBounds(l, k, |t|);
    hide InBounds, Disjoint;
    var r := Cells(l, s);
    CellsHold(l, s, r);
    assert Holds(Slot(l'.free, |t|), s', l'.free, t) by {
      assert t == s'[l'.free..l'.free + |t|];
    }
    var r' := Place(r, k, t);
    forall i | 0 <= i < |r'|
      ensures Holds(l'.slots[i], s', l'.free, r'[i])
    {
      if i != k { HoldsFrame(l.slots[i], s, s', l.free, l'.free, r[i]); }
    }
    CellsHold(l', s', r');
    LivePlace(r, k, t);
  }

  // ---------------------------------------------------------------- deletion

  /** Stored fields after emptying slot `k`, whose bytes become dead. */
  function Released(l: Layout, k: nat): Layout
    requires k < |l.slots|
  {
    l.(slots := l.slots[k := l.slots[k].(length := 0)],
       dead := l.dead + l.slots[k].length,
       tuples := (l.tuples + U32_LIMIT - 1) % U32_LIMIT)
  }

  lemma ReleasedInBounds(l: Layout, k: nat)
    requires InBounds(l) && Disjoint(l) && k < |l.slots|
    ensures InBounds(Released(l, k)) && Disjoint(Released(l, k))
  {
  }

  lemma ReleasedSound(l: Layout, s: PageBytes, s': PageBytes, k: nat)
    requires Sound(l, s) && k < |l.slots| && SameAbove(s, s', l.free)
    ensures Sound(Released(l, k), s')
    ensures Cells(Released(l, k), s') == Cells(l, s)[k := []]
    ensures Released(l, k).dead <= PAGE_SIZE
  {
    hide Cell, Cells, Live;
    var l' := Released(l, k);
    ReleasedInBounds(l, k);
    var r := Cells(l, s);
    assert PAGE_SIZE - l.free == Live(r) + l.dead;
    hide InBounds, Disjoint;
    CellsHold(l, s, r);
    forall i | 0 <= i < |r|
      ensures Holds(l'.slots[i], s', l'.free, r[k := []][i])
    {
      if i != k { HoldsFrame(l.slots[i], s, s', l.free, l.free, r[i]); }
    }
    CellsHold(l', s', r[k := []]);
    LiveUpdate(r, k, []);
  }

  // ---------------------------------------------------------------- compaction

  /** The first `i` slots lie in `temp` from `p` on, later slots lower. */
  ghost predicate Packing(slots: seq<Slot>, cells: seq<seq<byte>>, temp: seq<byte>, i: nat, p: nat)
    requires i <= |slots| == |cells|
  {
    && p <= |temp|
    && (forall j :: 0 <= j < i ==> Holds(slots[j], temp, p, cells[j]))
    && (forall j, k :: 0 <= j < k < i && slots[j].length > 0 && slots[k].length > 0 ==>
          slots[k].offset + slots[k].length <= slots[j].offset)
  }

  /** State of a compaction that has packed the first `i` slots: only their
      offsets differ from the original fields `l0`. */
  ghost predicate Packed(l0: Layout, cells: seq<seq<byte>>, l: Layout, temp: seq<byte>, i: nat, p: nat) {
    && |temp| == PAGE_SIZE && i <= |l0.slots| == |l.slots| == |cells|
    && l == l0.(slots := l.slots) && l.slots[i..] == l0.slots[i..]
    && Packing(l.slots, cells, temp, i, p)
    && PAGE_SIZE - p == Live(cells[..i])
  }

  /** The packing cursor cannot pass below the old free pointer, so it never
      underflows and never reaches the slot array. */
  lemma CursorAboveSlots(l0: Layout, s0: PageBytes, i: nat)
    requires Sound(l0, s0) && i <= |l0.slots|
    ensures l0.free + l0.dead <= PAGE_SIZE - Live(Cells(l0, s0)[..i])
  {
    LivePrefix(Cells(l0, s0), i);
  }

  lemma PackStep(l0: Layout, cells: seq<seq<byte>>, l: Layout, temp: seq<byte>, temp': seq<byte>, i: nat, p: nat)
    requires Packed(l0, cells, l, temp, i, p) && i < |cells|
    requires l.slots[i].length == |cells[i]| && 0 < |cells[i]| <= p
    requires SameAbove(temp, temp', p) && temp'[p - |cells[i]|..p] == cells[i]
    ensures var p' := p - |cells[i]|;
            Packed(l0, cells, l.(slots := l.slots[i := l.slots[i].(offset := p')]), temp', i + 1, p')
  {
    var p' := p - |cells[i]|;
    var slots' := l.slots[i := l.slots[i].(offset := p')];
    LiveStep(cells, i);
    forall j | 0 <= j < i + 1
      ensures Holds(slots'[j], temp', p', cells[j])
    {
      if j < i { HoldsFrame(l.slots[j], temp, temp', p, p', cells[j]); }
    }
    hide Holds, Live;
    forall j | 0 <= j < i && slots'[j].length > 0
      ensures p <= slots'[j].offset
    {
      HoldsAbove(l.slots[j], temp, p, cells[j]);
    }
  }

  lemma HoldsAbove(slot: Slot, s: seq<byte>, p: nat, t: seq<byte>)
    requires Holds(slot, s, p, t) && slot.length > 0
    ensures p <= slot.offset && slot.offset + slot.length <= |s|
  {
  }

  lemma PackSkip(l0: Layout, cells: seq<seq<byte>>, l: Layout, temp: seq<byte>, i: nat, p: nat)
    requires Packed(l0, cells, l, temp, i, p) && i < |cells|
    requires l.slots[i].length == |cells[i]| == 0
    ensures Packed(l0, cells, l, temp, i + 1, p)
  {
    LiveStep(cells, i);
  }

  /** Once every slot is packed, copying the packed region back and setting the
      free pointer gives a page with the same tuples and no gaps. */
  lemma PackDone(l0: Layout, s0: PageBytes, l: Layout, temp: PageBytes, p: nat, s': PageBytes)
    requires Sound(l0, s0) && Packed(l0, Cells(l0, s0), l, temp, |l0.slots|, p)
    requires SameAbove(temp, s', p)
    ensures Sound(l.(free := p, dead := 0), s')
    ensures Meaning(l.(free := p, dead := 0), s') == Meaning(l0, s0)
    ensures p == PAGE_SIZE - Live(Cells(l0, s0))
  {
    hide Cell, Cells, Live;
    var l' := l.(free := p, dead := 0);
    var r := Cells(l0, s0);
    CursorAboveSlots(l0, s0, |r|);
    assert r[..|r|] == r;
    forall j | 0 <= j < |r|
      ensures Holds(l'.slots[j], s', p, r[j])
    {
      HoldsFrame(l.slots[j], temp, s', p, p, r[j]);
    }
    forall j | 0 <= j < |r| && l'.slots[j].length > 0
      ensures p <= l'.slots[j].offset && l'.slots[j].offset + l'.slots[j].length <= PAGE_SIZE
    {
      HoldsAbove(l'.slots[j], s', p, r[j]);
    }
    CellsHold(l', s', r);
  }
}
