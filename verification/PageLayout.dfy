/** The bytes of a slotted page and what they mean.
    Byte layout: six 32-bit header fields, then the slot array growing up, then
    free space, then tuple bytes growing down from the end of the page. */
module PageLayout {
  import opened Config
  import opened Bytes

  const HEADER_SIZE := 24
  const SLOT_SIZE := 8

  const AT_PAGE_ID := 0
  const AT_NEXT := 4
  const AT_SLOT_COUNT := 8
  const AT_TUPLE_COUNT := 12
  const AT_FREE_PTR := 16
  const AT_DEAD := 20

  type PageBytes = s: seq<byte> | |s| == PAGE_SIZE witness seq(PAGE_SIZE, _ => 0)

  function SlotAt(i: nat): nat { HEADER_SIZE + SLOT_SIZE * i }

  // ---------------------------------------------------------------- stored fields

  datatype Slot = Slot(offset: nat, length: nat)

  /** The fields stored in the header and the slot array. */
  datatype Layout = Layout(id: nat, next: nat, tuples: nat, free: nat, dead: nat, slots: seq<Slot>)

  /** The slot count read from the header describes an array that is on the page. */
  predicate Decodable(s: PageBytes) {
    SlotAt(U32(s, AT_SLOT_COUNT)) <= PAGE_SIZE
  }

  function SlotOf(s: PageBytes, i: nat): Slot
    requires SlotAt(i + 1) <= PAGE_SIZE
  {
    Slot(U32(s, SlotAt(i)), U32(s, SlotAt(i) + 4))
  }

  function Decode(s: PageBytes): Layout
    requires Decodable(s)
  {
    Layout(U32(s, AT_PAGE_ID), U32(s, AT_NEXT), U32(s, AT_TUPLE_COUNT), U32(s, AT_FREE_PTR), U32(s, AT_DEAD),
           seq(U32(s, AT_SLOT_COUNT), i requires 0 <= i < U32(s, AT_SLOT_COUNT) => SlotOf(s, i)))
  }

  // ---------------------------------------------------------------- the page invariant

  /** The slot array ends at or before the free pointer, and every live range
      lies between the free pointer and the end of the page. */
  ghost predicate InBounds(l: Layout) {
    && SlotAt(|l.slots|) <= l.free <= PAGE_SIZE
    && forall i :: 0 <= i < |l.slots| && l.slots[i].length > 0 ==>
         l.free <= l.slots[i].offset && l.slots[i].offset + l.slots[i].length <= PAGE_SIZE
  }

  /** No two live tuples share a byte. */
  ghost predicate Disjoint(l: Layout) {
    forall i, j :: 0 <= i < j < |l.slots| && l.slots[i].length > 0 && l.slots[j].length > 0 ==>
      || l.slots[i].offset + l.slots[i].length <= l.slots[j].offset
      || l.slots[j].offset + l.slots[j].length <= l.slots[i].offset
  }

  /** The tuple held by slot `i`; a deleted slot holds no bytes. */
  ghost function Cell(l: Layout, s: PageBytes, i: nat): seq<byte>
    requires InBounds(l) && i < |l.slots|
  {
    if l.slots[i].length == 0 then [] else s[l.slots[i].offset..l.slots[i].offset + l.slots[i].length]
  }

  ghost function Cells(l: Layout, s: PageBytes): (r: seq<seq<byte>>)
    requires InBounds(l)
    ensures |r| == |l.slots|
    ensures forall i :: 0 <= i < |r| ==> |r[i]| == l.slots[i].length
  {
    seq(|l.slots|, i requires 0 <= i < |l.slots| => Cell(l, s, i))
  }

  /** Ranges are in bounds and disjoint, and every byte above the free pointer
      is accounted for, as live or as dead. */
  ghost predicate Sound(l: Layout, s: PageBytes) {
    && InBounds(l)
    && Disjoint(l)
    && PAGE_SIZE - l.free == Live(Cells(l, s)) + l.dead
  }

  /** What a page means: its identity, its link, and one byte string per slot. */
  datatype Page = Page(id: nat, next: nat, slots: seq<seq<byte>>, count: nat)

  ghost function Meaning(l: Layout, s: PageBytes): Page
    requires InBounds(l)
  {
    Page(l.id, l.next, Cells(l, s), l.tuples)
  }

  // ---------------------------------------------------------------- operations on meanings

  /** Total number of bytes held by live tuples. */
  function Live(slots: seq<seq<byte>>): nat {
    if |slots| == 0 then 0 else Live(slots[..|slots| - 1]) + |slots[|slots| - 1]|
  }

  function LiveCount(slots: seq<seq<byte>>): nat {
    if |slots| == 0 then 0
    else LiveCount(slots[..|slots| - 1]) + if slots[|slots| - 1] == [] then 0 else 1
  }

  /** Bytes a page could give to tuples and new slots after a compaction. */
  function Usable(p: Page): int {
    PAGE_SIZE - HEADER_SIZE - SLOT_SIZE * |p.slots| - Live(p.slots)
  }

  /** The lowest slot without bytes, or the slot count if there is none. */
  function FirstFree(slots: seq<seq<byte>>): (k: nat)
    ensures k <= |slots|
    ensures k < |slots| ==> slots[k] == []
    ensures forall j :: 0 <= j < k ==> slots[j] != []
  {
    if |slots| == 0 then 0
    else
      var k := FirstFree(slots[..|slots| - 1]);
      if k < |slots| - 1 || slots[|slots| - 1] == [] then k else |slots|
  }

  /** Space an insertion of `size` bytes takes, including a slot if one must be added. */
  function Cost(p: Page, size: nat): nat {
    size + if FirstFree(p.slots) == |p.slots| then SLOT_SIZE else 0
  }

  predicate Fits(p: Page, size: nat) {
    Cost(p, size) <= Usable(p)
  }

  function Place<T>(slots: seq<T>, k: nat, t: T): (r: seq<T>)
    requires k <= |slots|
    ensures |r| == if k == |slots| then |slots| + 1 else |slots|
  {
    if k == |slots| then slots + [t] else slots[k := t]
  }

  /** Page after storing `t` in the lowest free slot; the counter wraps at 32 bits. */
  function Insert(p: Page, t: seq<byte>): Page {
    p.(slots := Place(p.slots, FirstFree(p.slots), t), count := (p.count + 1) % U32_LIMIT)
  }

  /** Page after deleting slot `k`; a slot that holds nothing is left alone. */
  function Delete(p: Page, k: nat): Page
    requires k < |p.slots|
  {
    if p.slots[k] == [] then p
    else p.(slots := p.slots[k := []], count := (p.count + U32_LIMIT - 1) % U32_LIMIT)
  }

  // ---------------------------------------------------------------- sums over slots

  lemma {:induction false} LiveUpdate(slots: seq<seq<byte>>, k: nat, t: seq<byte>)
    requires k < |slots|
    ensures Live(slots[k := t]) == Live(slots) - |slots[k]| + |t|
    ensures LiveCount(slots[k := t]) ==
            LiveCount(slots) - (if slots[k] == [] then 0 else 1) + (if t == [] then 0 else 1)
  {
    var n := |slots| - 1;
    if k == n {
      assert slots[k := t][..n] == slots[..n];
    } else {
      assert slots[k := t][..n] == slots[..n][k := t];
      LiveUpdate(slots[..n], k, t);
    }
  }

  lemma {:induction false} LivePlace(slots: seq<seq<byte>>, k: nat, t: seq<byte>)
    requires k <= |slots|
    requires k < |slots| ==> slots[k] == []
    ensures Live(Place(slots, k, t)) == Live(slots) + |t|
    ensures LiveCount(Place(slots, k, t)) == LiveCount(slots) + if t == [] then 0 else 1
  {
    if k < |slots| {
      LiveUpdate(slots, k, t);
    } else {
      assert (slots + [t])[..|slots|] == slots;
    }
  }

  lemma {:induction false} LivePrefix(slots: seq<seq<byte>>, i: nat)
    requires i <= |slots|
    ensures Live(slots[..i]) <= Live(slots)
    decreases |slots|
  {
    if i == |slots| {
      assert slots[..i] == slots;
    } else {
      assert slots[..|slots| - 1][..i] == slots[..i];
      LivePrefix(slots[..|slots| - 1], i);
    }
  }

  lemma LiveStep(slots: seq<seq<byte>>, i: nat)
    requires i < |slots|
    ensures Live(slots[..i + 1]) == Live(slots[..i]) + |slots[i]|
  {
    assert slots[..i + 1][..i] == slots[..i];
  }

  lemma LiveEmpty()
    ensures Live([]) == 0 && LiveCount([]) == 0
  {
  }
}
