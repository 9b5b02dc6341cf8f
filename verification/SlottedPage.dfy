/** The slotted page as an in-place allocator over one array of 4096 bytes that
    holds header, slot array and tuple data together. */
module SlottedPage {
  import opened Config
  import opened Bytes
  import opened PageLayout
  import opened PageSteps

  datatype PageError = InvalidRid | EmptySlot

  class SlottedPage {
    const buf: array<byte>

    constructor (page: array<byte>)
      requires page.Length == PAGE_SIZE
      ensures buf == page
    {
      buf := page;
    }

    ghost predicate Readable()
      reads this, buf
    {
      buf.Length == PAGE_SIZE && Decodable(buf[..])
    }

    ghost function Fields(): Layout
      requires Readable()
      reads this, buf
    {
      Decode(buf[..])
    }

    ghost predicate Valid()
      reads this, buf
    {
      Readable() && Sound(Fields(), buf[..])
    }

    ghost function Value(): Page
      requires Valid()
      reads this, buf
    {
      Meaning(Fields(), buf[..])
    }

    // -------------------------------------------------------------- single fields

    function Get32(at: nat): nat
      requires buf.Length == PAGE_SIZE && at + 4 <= PAGE_SIZE
      reads this, buf
    {
      U32(buf[..], at)
    }

    method Put32(at: nat, v: nat)
      requires buf.Length == PAGE_SIZE && at + 4 <= PAGE_SIZE && v < U32_LIMIT
      modifies buf
      ensures U32(buf[..], at) == v
      ensures forall a :: 0 <= a <= PAGE_SIZE - 4 && (a + 4 <= at || at + 4 <= a) ==>
                            U32(buf[..], a) == U32(old(buf[..]), a)
      ensures SameAbove(old(buf[..]), buf[..], at + 4)
    {
      var bs := LE32(v);
      buf[at], buf[at + 1], buf[at + 2], buf[at + 3] := bs[0], bs[1], bs[2], bs[3];
    }

    method SetTuples(v: nat)
      requires Readable() && v < U32_LIMIT
      modifies buf
      ensures Readable() && Fields() == old(Fields()).(tuples := v)
      ensures SameAbove(old(buf[..]), buf[..], SlotAt(|Fields().slots|))
    {
      hide U32;
      Put32(AT_TUPLE_COUNT, v);
      assert Fields().slots == old(Fields().slots);
    }

    method SetFree(v: nat)
      requires Readable() && v < U32_LIMIT
      modifies buf
      ensures Readable() && Fields() == old(Fields()).(free := v)
      ensures SameAbove(old(buf[..]), buf[..], SlotAt(|Fields().slots|))
    {
      hide U32;
      Put32(AT_FREE_PTR, v);
      assert Fields().slots == old(Fields().slots);
    }

    method SetDead(v: nat)
      requires Readable() && v < U32_LIMIT
      modifies buf
      ensures Readable() && Fields() == old(Fields()).(dead := v)
      ensures SameAbove(old(buf[..]), buf[..], SlotAt(|Fields().slots|))
    {
      hide U32;
      Put32(AT_DEAD, v);
      assert Fields().slots == old(Fields().slots);
    }

    /** Links this page to its successor in the chain. */
    method SetNextPageId(v: nat)
      requires Valid() && v < U32_LIMIT
      modifies buf
      ensures Valid() && Value() == old(Value()).(next := v)
    {
      hide U32, Live;
      ghost var l, s := Fields(), buf[..];
      Put32(AT_NEXT, v);
      assert Fields().slots == l.slots;
      RenamedSound(l, s, Fields(), buf[..]);
    }

    /** Adds one slot, whose contents are whatever bytes were there. */
    method AddSlot()
      requires Readable() && SlotAt(|Fields().slots| + 1) <= PAGE_SIZE
      modifies buf
      ensures Readable()
      ensures Fields() == old(Fields()).(slots := Fields().slots)
      ensures |Fields().slots| == |old(Fields()).slots| + 1
      ensures Fields().slots[..|old(Fields()).slots|] == old(Fields()).slots
      ensures SameAbove(old(buf[..]), buf[..], SlotAt(|Fields().slots|))
    {
      hide U32;
      Put32(AT_SLOT_COUNT, Get32(AT_SLOT_COUNT) + 1);
    }

    method SetOffset(k: nat, v: nat)
      requires Readable() && k < |Fields().slots| && v < U32_LIMIT
      modifies buf
      ensures Readable()
      ensures Fields() == old(Fields()).(slots := old(Fields()).slots[k := old(Fields()).slots[k].(offset := v)])
      ensures SameAbove(old(buf[..]), buf[..], SlotAt(|Fields().slots|))
    {
      hide U32;
      ghost var r := Fields().slots[k := Fields().slots[k].(offset := v)];
      Put32(SlotAt(k), v);
      assert Fields().slots == r;
    }

    method SetLength(k: nat, v: nat)
      requires Readable() && k < |Fields().slots| && v < U32_LIMIT
      modifies buf
      ensures Readable()
      ensures Fields() == old(Fields()).(slots := old(Fields()).slots[k := old(Fields()).slots[k].(length := v)])
      ensures SameAbove(old(buf[..]), buf[..], SlotAt(|Fields().slots|))
    {
      hide U32;
      ghost var r := Fields().slots[k := Fields().slots[k].(length := v)];
      Put32(SlotAt(k) + 4, v);
      assert Fields().slots == r;
    }

    method PutBytes(at: nat, t: seq<byte>)
      requires Readable() && SlotAt(|Fields().slots|) <= at && at + |t| <= PAGE_SIZE
      modifies buf
      ensures Readable() && Fields() == old(Fields())
      ensures forall x :: 0 <= x < |t| ==> buf[at + x] == t[x]
      ensures SameAbove(old(buf[..]), buf[..], at + |t|)
    {
      ghost var s := buf[..];
      forall x | 0 <= x < |t| {
        buf[at + x] := t[x];
      }
      assert forall a :: 0 <= a && a + 4 <= at ==> U32(buf[..], a) == U32(s, a);
      hide U32;
      assert Fields().slots == old(Fields().slots);
    }

    // -------------------------------------------------------------- page operations

    /** Fresh page header. `dead_space_` is not written, so the page is well
        formed exactly if that field was already zero. */
    method Init(pageId: nat)
      requires buf.Length == PAGE_SIZE && pageId < U32_LIMIT
      modifies buf
      ensures Readable() && InBounds(Fields())
      ensures Meaning(Fields(), buf[..]) == Page(pageId, INVALID_PAGE_ID, [], 0)
      ensures Valid() <==> U32(old(buf[..]), AT_DEAD) == 0
    {
      hide U32;
      Put32(AT_PAGE_ID, pageId);
      Put32(AT_NEXT, INVALID_PAGE_ID);
      Put32(AT_SLOT_COUNT, 0);
      Put32(AT_TUPLE_COUNT, 0);
      Put32(AT_FREE_PTR, PAGE_SIZE);
    }

    method PageId() returns (id: nat)
      requires Valid()
      ensures id == Value().id
    {
      id := Get32(AT_PAGE_ID);
    }

    method FreeSpaceRemaining() returns (n: nat)
      requires Valid()
      ensures n + Fields().dead == Usable(Value())
    {
      n := Get32(AT_FREE_PTR) - SlotAt(Get32(AT_SLOT_COUNT));
    }

    method UsableSpace() returns (n: nat)
      requires Valid()
      ensures n == Usable(Value())
    {
      var r := FreeSpaceRemaining();
      n := r + Get32(AT_DEAD);
    }

    method IsSlotOccupied(k: nat) returns (b: bool)
      requires Valid()
      ensures b <==> k < |Value().slots| && Value().slots[k] != []
    {
      hide U32, Live;
      if k >= Get32(AT_SLOT_COUNT) {
        return false;
      }
      b := Get32(SlotAt(k) + 4) != 0;
      assert |Value().slots[k]| == Fields().slots[k].length;
    }

    method GetTuple(rid: RecordId) returns (r: Result<seq<byte>, PageError>)
      requires Valid()
      ensures r == if rid.pageId != Value().id || rid.slotNum >= |Value().slots| then Failure(InvalidRid)
                   else if Value().slots[rid.slotNum] == [] then Failure(EmptySlot)
                   else Success(Value().slots[rid.slotNum])
    {
      hide U32, Live;
      if rid.pageId != Get32(AT_PAGE_ID) || rid.slotNum >= Get32(AT_SLOT_COUNT) {
        return Failure(InvalidRid);
      }
      var o, length := Get32(SlotAt(rid.slotNum)), Get32(SlotAt(rid.slotNum) + 4);
      assert Fields().slots[rid.slotNum] == Slot(o, length);
      if length == 0 {
        return Failure(EmptySlot);
      }
      r := Success(buf[o..o + length]);
    }

    method DeleteTuple(rid: RecordId) returns (r: Result<(), PageError>)
      requires Valid()
      modifies buf
      ensures Valid()
      ensures rid.pageId != old(Value()).id || rid.slotNum >= |old(Value()).slots| ==>
                r == Failure(InvalidRid) && buf[..] == old(buf[..])
      ensures rid.pageId == old(Value()).id && rid.slotNum < |old(Value()).slots| ==>
                r == Success(()) && Value() == Delete(old(Value()), rid.slotNum)
    {
      hide U32, Live, Cell, Disjoint;
      var k := rid.slotNum;
      if rid.pageId != Get32(AT_PAGE_ID) || k >= Get32(AT_SLOT_COUNT) {
        return Failure(InvalidRid);
      }
      var length := Get32(SlotAt(k) + 4);
      ghost var l, s := Fields(), buf[..];
      assert l.slots[k].length == length && |Cells(l, s)[k]| == length;
      if length > 0 {
        ReleasedSound(l, s, s, k);
        SetDead(Get32(AT_DEAD) + length);
        SetLength(k, 0);
        SetTuples((Get32(AT_TUPLE_COUNT) + U32_LIMIT - 1) % U32_LIMIT);
        ReleasedSound(l, s, buf[..], k);
      }
      r := Success(());
    }

    method MemCopy(dst: array<byte>, to: nat, from: nat, length: nat)
      requires buf.Length == dst.Length == PAGE_SIZE && dst != buf
      requires to + length <= PAGE_SIZE && from + length <= PAGE_SIZE
      modifies dst
      ensures dst[to..to + length] == buf[from..from + length]
      ensures SameAbove(old(dst[..]), dst[..], to + length)
    {
      forall x | 0 <= x < length {
        dst[to + x] := buf[from + x];
      }
    }

    /** Packs the tuple of slot `i` below `p` in `temp` and records its new place. */
    method PackSlot(ghost l0: Layout, ghost s0: PageBytes, temp: array<byte>, i: nat, p: nat) returns (p': nat)
      requires Readable() && temp.Length == PAGE_SIZE && temp != buf
      requires Sound(l0, s0) && Packed(l0, Cells(l0, s0), Fields(), temp[..], i, p) && i < |l0.slots|
      requires SameAbove(s0, buf[..], SlotAt(|l0.slots|))
      modifies buf, temp
      ensures Readable() && Packed(l0, Cells(l0, s0), Fields(), temp[..], i + 1, p')
      ensures SameAbove(s0, buf[..], SlotAt(|l0.slots|))
    {
      hide U32, Live, Disjoint, Packing;
      ghost var l, tmp, r := Fields(), temp[..], Cells(l0, s0);
      p' := p;
      var length := Get32(SlotAt(i) + 4);
      assert l.slots[i] == l.slots[i..][0] == l0.slots[i] && |r[i]| == length;
      if length > 0 {
        LiveStep(r, i);
        CursorAboveSlots(l0, s0, i + 1);
        p' := p - length;
        var from := Get32(SlotAt(i));
        MemCopy(temp, p', from, length);
        assert temp[p'..p] == r[i];
        SetOffset(i, p');
        PackStep(l0, r, l, tmp, temp[..], i, p);
      } else {
        PackSkip(l0, r, l, tmp, i, p);
      }
    }

    /** Copies the packed region back and resets the free pointer and dead count. */
    method Unpack(ghost l0: Layout, ghost s0: PageBytes, temp: array<byte>, p: nat)
      requires Readable() && temp.Length == PAGE_SIZE && temp != buf
      requires Sound(l0, s0) && Packed(l0, Cells(l0, s0), Fields(), temp[..], |l0.slots|, p)
      modifies buf
      ensures Valid() && Value() == Meaning(l0, s0)
      ensures Fields().dead == 0 && Fields().free == PAGE_SIZE - Live(Value().slots)
    {
      hide Live, Disjoint, Packing, Cell, Cells;
      ghost var l := Fields();
      CursorAboveSlots(l0, s0, |l0.slots|);
      PutBytes(p, temp[p..]);
      SetFree(p);
      SetDead(0);
      PackDone(l0, s0, l, temp[..], p, buf[..]);
    }

    /** Moves the live tuples to the end of the page with no gaps between them. */
    method Compact()
      requires Valid()
      modifies buf
      ensures Valid()
      ensures Value() == old(Value())
      ensures Fields().dead == 0
      ensures Fields().free == PAGE_SIZE - Live(Value().slots)
    {
      hide U32, Live, Disjoint;
      if Get32(AT_DEAD) == 0 {
        return;
      }
      ghost var l0, s0 := Fields(), buf[..];
      var temp := new byte[PAGE_SIZE];
      var newFreePtr: nat := PAGE_SIZE;
      var count := Get32(AT_SLOT_COUNT);
      assert Live(Cells(l0, s0)[..0]) == 0 by { LiveEmpty(); }
      for i := 0 to count
        invariant Readable() && Packed(l0, Cells(l0, s0), Fields(), temp[..], i, newFreePtr)
        invariant SameAbove(s0, buf[..], SlotAt(count))
      {
        newFreePtr := PackSlot(l0, s0, temp, i, newFreePtr);
      }
      Unpack(l0, s0, temp, newFreePtr);
    }

    /** The lowest slot of length zero, or the slot count. */
    method FindFreeSlot() returns (k: nat)
      requires Valid()
      ensures k == FirstFree(Value().slots)
    {
      hide U32, Live;
      var count := Get32(AT_SLOT_COUNT);
      k := 0;
      while k < count && Get32(SlotAt(k) + 4) != 0
        invariant k <= count
        invariant forall j :: 0 <= j < k ==> |Value().slots[j]| != 0
      {
        assert |Value().slots[k]| == Fields().slots[k].length;
        k := k + 1;
      }
      assert k < count ==> |Value().slots[k]| == Fields().slots[k].length;
    }

    /** Puts `t` below the free pointer and describes it in slot `k`. */
    method WriteTuple(k: nat, t: seq<byte>)
      requires Readable() && k <= |Fields().slots| && Fields().free <= PAGE_SIZE
      requires SlotAt(|Place(Fields().slots, k, Slot(0, 0))|) + |t| <= Fields().free
      modifies buf
      ensures Readable() && Fields() == Allocated(old(Fields()), k, |t|)
      ensures SameAbove(old(buf[..]), buf[..], old(Fields()).free)
      ensures forall x :: 0 <= x < |t| ==> buf[Fields().free + x] == t[x]
    {
      hide U32;
      ghost var l := Fields();
      if k == Get32(AT_SLOT_COUNT) {
        AddSlot();
      }
      var offset := Get32(AT_FREE_PTR) - |t|;
      SetFree(offset);
      PutBytes(offset, t);
      SetOffset(k, offset);
      SetLength(k, |t|);
      SetTuples((Get32(AT_TUPLE_COUNT) + 1) % U32_LIMIT);
      assert Fields().slots == Place(l.slots, k, Slot(offset, |t|));
    }

    /** Stores `t` in slot `k` on a page whose free space suffices as it is. */
    method Allocate(k: nat, t: seq<byte>)
      requires Valid() && k == FirstFree(Value().slots)
      requires Cost(Value(), |t|) + Fields().dead <= Usable(Value())
      modifies buf
      ensures Valid() && Value() == Insert(old(Value()), t)
    {
      hide U32, Live, Cell, Disjoint, Decode;
      ghost var l, s := Fields(), buf[..];
      assert k < |l.slots| ==> |Cells(l, s)[k]| == l.slots[k].length;
      WriteTuple(k, t);
      AllocatedSound(l, s, buf[..], k, t);
    }

    /** Stores `t`, reusing the lowest free slot and compacting if that makes
        room. Refuses, leaving every byte as it was, exactly if it cannot fit. */
    method InsertTuple(t: seq<byte>) returns (ok: bool, rid: RecordId)
      requires Valid()
      requires |t| + SLOT_SIZE < U32_LIMIT
      modifies buf
      ensures Valid()
      ensures ok <==> Fits(old(Value()), |t|)
      ensures !ok ==> buf[..] == old(buf[..])
      ensures ok ==> Value() == Insert(old(Value()), t)
      ensures ok ==> rid == RecordId(old(Value()).id, FirstFree(old(Value()).slots))
    {
      hide U32, Live, InBounds, Disjoint, Cell;
      rid := RecordId(INVALID_PAGE_ID, 0);
      var k := FindFreeSlot();
      var needed := |t| + if k == Get32(AT_SLOT_COUNT) then SLOT_SIZE else 0;
      var free := FreeSpaceRemaining();
      var usable := UsableSpace();
      if free < needed {
        if usable >= needed {
          Compact();
        } else {
          return false, rid;
        }
      }
      Allocate(k, t);
      ok, rid := true, RecordId(Get32(AT_PAGE_ID), k);
    }
  }
}
