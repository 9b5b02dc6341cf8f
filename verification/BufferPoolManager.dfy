/** The buffer pool manager as an object: frames, page table, free list, replacer
    and disk change in place, and every operation computes what `BufferPool`
    says it does. */
module BufferPoolManager {
  import opened Config
  import opened Bytes
  import opened PageLayout
  import opened ArcPolicy
  import opened ArcInvariant
  import opened ArcReplacer
  import opened BufferPool
  import opened PoolInvariant

  class BufferPoolManager {
    const frames: array<Frame>
    const replacer: ArcReplacer
    var pageTable: map<Key, nat>
    var freeFrames: seq<nat>
    var disk: map<Key, PageBytes>
    var nextPageId: nat

    ghost function Model(): Pool
      reads this, frames, replacer
    {
      Pool(frames[..], pageTable, freeFrames, replacer.Model(), disk, nextPageId)
    }

    ghost predicate Valid()
      reads this, frames, replacer
    {
      Coupled(Model())
    }

    constructor (poolSize: nat)
      ensures fresh(frames) && fresh(replacer)
      ensures Model() == FreshPool(poolSize) && Good(Model(), {})
    {
      frames := new Frame[poolSize](_ => Frame(0, INVALID_PAGE_ID, 0, false, ZeroPage()));
      replacer := new ArcReplacer(poolSize);
      pageTable, disk, nextPageId := map[], map[], 0;
      freeFrames := seq(poolSize, i => i);
      FreshPoolGood(poolSize);
      new;
      hide Good;
      assert Model() == FreshPool(poolSize);
    }

    /** Finds a frame and makes it give up the page it holds. It fails exactly if
        every frame is pinned; the frame it finds was unpinned and is nobody's. */
    method AcquireFrame() returns (v: Option<nat>)
      requires Valid()
      modifies this, frames, replacer
      ensures (Model(), v) == Acquire(old(Model()))
      ensures v.None? <==> AllFramesPinned(old(Model()))
      ensures v.Some? ==> v.value < frames.Length && Acquired(old(Model()), Model(), v.value)
    {
      hide Evict, Inv, Evicted, Acquired, Found;
      AcquireKeeps(Model());
      var f: nat;
      if freeFrames != [] {
        f := freeFrames[0];
        freeFrames := freeFrames[1..];
      } else {
        v := replacer.Evict();
        if v.None? {
          return None;
        }
        f := v.value;
      }
      hide Coupled, CoupledBut;
      if frames[f].page != INVALID_PAGE_ID {
        if frames[f].dirty {
          disk := disk[KeyOf(frames[f]) := frames[f].data];
        }
        pageTable := pageTable - {KeyOf(frames[f])};
      }
      v := Some(f);
    }

    /** Loads or finds page `k` and pins it. */
    method FetchPage(k: Key, ghost writers: set<nat>) returns (v: Option<nat>)
      requires Good(Model(), writers) && k in disk
      modifies this, frames, replacer
      ensures (Model(), v) == Fetch(old(Model()), k)
      ensures Good(Model(), writers) && Fetched(old(Model()), k, Model(), v)
    {
      hide Coupled, CoupledBut, Synced, WritersPinned, Fetched, Inv, RecordAccess, SetEvictable, LegalAccess, Accessed;
      FetchKeeps(Model(), k, writers);
      var f: nat;
      if k in pageTable {
        f := pageTable[k];
        TableFact(Model(), k);
        OnlyFrame(Model(), k);
        CoupledInv(Model());
        frames[f] := frames[f].(pins := frames[f].pins + 1);
      } else {
        v := AcquireFrame();
        if v.None? {
          return None;
        }
        f := v.value;
        EntryIsLegal(Model(), f, k);
        frames[f] := Frame(k.file, k.page, 1, false, disk[k]);
        pageTable := pageTable[k := f];
      }
      replacer.RecordAccess(f, k.page);
      replacer.SetEvictable(f, false);
      v := Some(f);
      assert frames[..] == old(frames[..])[f := frames[f]];
    }

    /** Allocates a page, zeroed and pinned. */
    method NewPage(file: nat, ghost writers: set<nat>) returns (v: Option<(nat, nat)>)
      requires Good(Model(), writers) && nextPageId < INVALID_PAGE_ID
      modifies this, frames, replacer
      ensures (Model(), v) == BufferPool.NewPage(old(Model()), file)
      ensures Good(Model(), writers) && Created(old(Model()), file, Model(), v)
    {
      hide Coupled, CoupledBut, Synced, WritersPinned, Created, Inv, RecordAccess, SetEvictable, LegalAccess, Accessed;
      NewPageKeeps(Model(), file, writers);
      var a := AcquireFrame();
      if a.None? {
        return None;
      }
      var f := a.value;
      var id := nextPageId;
      FreshIsLegal(Model(), f, Key(file, id));
      nextPageId := nextPageId + 1;
      frames[f] := Frame(file, id, 1, false, ZeroPage());
      pageTable := pageTable[Key(file, id) := f];
      replacer.RecordAccess(f, id);
      replacer.SetEvictable(f, false);
      disk := disk[Key(file, id) := frames[f].data];
      v := Some((f, id));
      assert frames[..] == old(frames[..])[f := frames[f]];
    }

    /** Drops one pin. What that does to the guards still out is
        `UnpinKeeps`. */
    method UnpinPage(k: Key, dirty: bool) returns (ok: bool)
      requires Valid()
      modifies this, frames, replacer
      ensures (Model(), ok) == Unpin(old(Model()), k, dirty)
      ensures Valid() && Unpinned(old(Model()), k, dirty, Model(), ok)
    {
      hide Coupled, CoupledBut, Unpinned, Inv, SetEvictable;
      UnpinCoupled(Model(), k, dirty);
      CoupledInv(Model());
      if k !in pageTable {
        return false;
      }
      var f := pageTable[k];
      TableFact(Model(), k);
      if frames[f].pins == 0 {
        return false;
      }
      frames[f] := frames[f].(pins := frames[f].pins - 1);
      if dirty {
        frames[f] := frames[f].(dirty := true);
      }
      assert frames[..] == old(frames[..])[f := frames[f]];
      if frames[f].pins == 0 {
        replacer.SetEvictable(f, true);
      }
      ok := true;
    }

    method WriteFrame(f: nat)
      requires f < frames.Length
      modifies this, frames
      ensures Model() == WriteBack(old(Model()), f)
    {
      disk := disk[KeyOf(frames[f]) := frames[f].data];
      frames[f] := frames[f].(dirty := false);
    }

    method FlushPage(k: Key, ghost writers: set<nat>) returns (ok: bool)
      requires Good(Model(), writers)
      modifies this, frames
      ensures (Model(), ok) == Flush(old(Model()), k)
      ensures Good(Model(), writers) && SameShown(old(Model()), Model())
      ensures ok <==> k in old(pageTable)
      ensures ok ==> k in disk && disk[k] == Shown(Model(), k)
    {
      hide Coupled, CoupledBut, Synced, WritersPinned;
      if k !in pageTable {
        return false;
      }
      TableFact(Model(), k);
      WriteBackKeeps(Model(), pageTable[k], writers);
      WriteFrame(pageTable[k]);
      ok := true;
    }

    /** Writes every dirty page back; nothing is dirty afterwards. */
    method FlushAllPages(ghost writers: set<nat>)
      requires Good(Model(), writers)
      modifies this, frames
      ensures Model() == FlushFirst(old(Model()), frames.Length)
      ensures Good(Model(), writers) && SameShown(old(Model()), Model())
      ensures forall f :: 0 <= f < frames.Length ==> !frames[f].dirty
    {
      hide Coupled, CoupledBut, Synced, WritersPinned, SameShown;
      ghost var before := Model();
      for i := 0 to frames.Length
        invariant Model() == FlushFirst(before, i)
      {
        if frames[i].page != INVALID_PAGE_ID && frames[i].dirty {
          WriteFrame(i);
        }
      }
      FlushFirstKeeps(before, frames.Length, writers);
      forall f | 0 <= f < frames.Length
        ensures !frames[f].dirty
      {
        FrameFact(before, f);
      }
    }

    /** Throws a page out of the pool unless it is pinned. The replacer never
        terminates the process here. */
    method DeletePage(k: Key, ghost writers: set<nat>) returns (ok: bool)
      requires Good(Model(), writers)
      modifies this, frames, replacer
      ensures BufferPool.DeletePage(old(Model()), k) == Some((Model(), ok))
      ensures Good(Model(), writers) && Deleted(old(Model()), k, Model(), ok)
    {
      hide Coupled, CoupledBut, Synced, WritersPinned, Deleted, Inv;
      DeleteKeeps(Model(), k, writers);
      CoupledInv(Model());
      if k !in pageTable {
        return true;
      }
      var f := pageTable[k];
      TableFact(Model(), k);
      if frames[f].pins > 0 {
        return false;
      }
      pageTable := pageTable - {k};
      ok := replacer.Remove(f);
      freeFrames := freeFrames + [f];
      frames[f] := Frame(0, INVALID_PAGE_ID, 0, false, ZeroPage());
    }
  }
}
