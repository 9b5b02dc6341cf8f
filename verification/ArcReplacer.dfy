/** The replacer as an object whose lists, maps and counters change in place. */
module ArcReplacer {
  import opened Config
  import opened ArcPolicy
  import opened ArcInvariant

  class ArcReplacer {
    var mru: seq<nat>
    var mfu: seq<nat>
    var mruGhost: seq<nat>
    var mfuGhost: seq<nat>
    var aliveMap: map<nat, Status>
    var ghostMap: map<nat, Status>
    var currSize: int
    var mruTargetSize: nat
    const replacerSize: nat

    function Model(): Arc
      reads this
    {
      Arc(mru, mfu, mruGhost, mfuGhost, aliveMap, ghostMap, currSize, mruTargetSize, replacerSize)
    }

    /** Lists, maps, tags and count agree, and the lists respect the capacity. */
    ghost predicate Valid()
      reads this
    {
      Inv(Model())
    }

    constructor (numFrames: nat)
      ensures Valid() && Model() == Initial(numFrames)
      ensures aliveMap == map[] && ghostMap == map[] && mruTargetSize == 0 && replacerSize == numFrames
    {
      InitialInv(numFrames);
      mru, mfu, mruGhost, mfuGhost := [], [], [], [];
      aliveMap, ghostMap := map[], map[];
      currSize, mruTargetSize, replacerSize := 0, 0, numFrames;
    }

    /** Walks a live list from its least recent end to the first evictable frame. */
    method ScanBackward(live: seq<nat>) returns (found: bool, at: nat)
      ensures found <==> LastEvictable(live, aliveMap) >= 0
      ensures found ==> at == LastEvictable(live, aliveMap)
    {
      at := |live|;
      while at > 0
        invariant at <= |live|
        invariant LastEvictable(live, aliveMap) == LastEvictable(live[..at], aliveMap)
      {
        at := at - 1;
        assert live[..at + 1][..at] == live[..at];
        if live[at] in aliveMap && aliveMap[live[at]].evictable {
          return true, at;
        }
      }
      return false, 0;
    }

    /** Demotes the frame at position `at` of a live list to that side's ghosts. */
    method Demote(fromMru: bool, at: nat) returns (fid: nat)
      requires at < |if fromMru then mru else mfu|
      requires at == LastEvictable(if fromMru then mru else mfu, aliveMap)
      modifies this
      ensures (Model(), Some(fid)) == ArcPolicy.TryEvict(old(Model()), fromMru)
    {
      fid := (if fromMru then mru else mfu)[at];
      var status := aliveMap[fid];
      var pid := status.page;
      status := status.(tag := if fromMru then MruGhost else MfuGhost, frame := INVALID_FRAME_ID);
      if fromMru {
        mruGhost := [pid] + mruGhost;
        mru := mru[..at] + mru[at + 1..];
      } else {
        mfuGhost := [pid] + mfuGhost;
        mfu := mfu[..at] + mfu[at + 1..];
      }
      ghostMap := ghostMap[pid := status];
      aliveMap := aliveMap - {fid};
      currSize := currSize - 1;
    }

    /** Takes the least recent evictable frame of one side, if it has one. */
    method TryEvict(fromMru: bool) returns (v: Option<nat>)
      requires Valid()
      modifies this
      ensures Valid() && TriedEvict(old(Model()), fromMru, Model(), v)
      ensures (Model(), v) == ArcPolicy.TryEvict(old(Model()), fromMru)
    {
      hide Inv, TriedEvict;
      TryEvictKeeps(Model(), fromMru);
      TryEvictChooses(Model(), fromMru);
      var found, at := ScanBackward(if fromMru then mru else mfu);
      if !found {
        return None;
      }
      hide ArcPolicy.TryEvict;
      var fid := Demote(fromMru, at);
      v := Some(fid);
    }

    /** Fails exactly if no frame is evictable, and otherwise takes the one that
        the policy promises. */
    method Evict() returns (v: Option<nat>)
      requires Valid()
      modifies this
      ensures Valid() && Evicted(old(Model()), Model(), v)
      ensures (Model(), v) == ArcPolicy.Evict(old(Model()))
    {
      hide Inv, TriedEvict, Evicted, ArcPolicy.TryEvict;
      EvictKeeps(Model());
      EvictChooses(Model());
      if currSize == 0 {
        return None;
      }
      if |mru| > mruTargetSize {
        v := TryEvict(true);
        if v.None? {
          v := TryEvict(false);
        }
      } else {
        v := TryEvict(false);
        if v.None? {
          v := TryEvict(true);
        }
      }
    }

    /** Access to a live frame: it becomes the most recent of `mfu`. */
    method Hit(f: nat)
      requires f in aliveMap
      modifies this
      ensures Model() == Promote(old(Model()), f)
    {
      if aliveMap[f].tag.Mru? {
        mru := Without(mru, f);
      } else {
        mfu := Without(mfu, f);
      }
      aliveMap := aliveMap[f := aliveMap[f].(tag := Mfu)];
      mfu := [f] + mfu;
    }

    /** Access to a remembered page: adapt the target and bring it back. */
    method GhostHit(f: nat, p: nat)
      requires p in ghostMap
      modifies this
      ensures Model() == Resurrect(old(Model()), f, p)
    {
      hide Ratio;
      var b1, b2 := |mruGhost|, |mfuGhost|;
      if ghostMap[p].tag.MruGhost? {
        var delta := Ratio(b2, b1);
        mruTargetSize := if mruTargetSize + delta < replacerSize then mruTargetSize + delta else replacerSize;
        mruGhost := Without(mruGhost, p);
      } else {
        var delta := Ratio(b1, b2);
        mruTargetSize := if mruTargetSize > delta then mruTargetSize - delta else 0;
        mfuGhost := Without(mfuGhost, p);
      }
      ghostMap := ghostMap - {p};
      mfu := [f] + mfu;
      aliveMap := aliveMap[f := Status(p, f, false, Mfu)];
    }

    /** Forgets the oldest ghost of a full directory. */
    method TrimGhosts()
      modifies this
      ensures Model() == Trim(old(Model()))
    {
      var t1, b1 := |mru|, |mruGhost|;
      if t1 + b1 == replacerSize {
        if b1 > 0 {
          var dropped := mruGhost[b1 - 1];
          mruGhost := mruGhost[..b1 - 1];
          ghostMap := ghostMap - {dropped};
        }
      } else {
        var total := t1 + |mfu| + b1 + |mfuGhost|;
        if t1 + b1 < replacerSize && total >= 2 * replacerSize && mfuGhost != [] {
          var dropped := mfuGhost[|mfuGhost| - 1];
          mfuGhost := mfuGhost[..|mfuGhost| - 1];
          ghostMap := ghostMap - {dropped};
        }
      }
    }

    /** Makes `f` the most recent frame of its side and adapts target and ghosts. */
    method RecordAccess(f: nat, p: nat)
      requires Valid() && LegalAccess(Model(), f, p)
      modifies this
      ensures Valid() && Accessed(old(Model()), f, p, Model())
      ensures Model() == ArcPolicy.RecordAccess(old(Model()), f, p)
    {
      hide Promote, Resurrect, Trim, Inv, Accessed, LegalAccess;
      RecordAccessKeeps(Model(), f, p);
      AccessPlaces(Model(), f, p);
      if f in aliveMap {
        Hit(f);
      } else if p in ghostMap {
        GhostHit(f, p);
      } else {
        TrimGhosts();
        mru := [f] + mru;
        aliveMap := aliveMap[f := Status(p, f, false, Mru)];
      }
    }

    /** Marks one live frame, and counts the evictable frames. */
    method SetEvictable(f: nat, e: bool)
      requires Valid()
      modifies this
      ensures Valid() && currSize == |EvictableSet(aliveMap)|
      ensures aliveMap.Keys == old(aliveMap.Keys)
      ensures forall g :: g in aliveMap ==> aliveMap[g].page == old(aliveMap)[g].page
      ensures forall g :: g in aliveMap ==> aliveMap[g].evictable == if g == f then e else old(aliveMap)[g].evictable
      ensures SameLists(old(Model()), Model())
      ensures Model() == ArcPolicy.SetEvictable(old(Model()), f, e)
    {
      hide LiveLists, GhostLists, PagesApart, Bounded, EvictableSet;
      SetEvictableKeeps(Model(), f, e);
      if f !in aliveMap || aliveMap[f].evictable == e {
        return;
      }
      aliveMap := aliveMap[f := aliveMap[f].(evictable := e)];
      currSize := if e then currSize + 1 else currSize - 1;
    }

    /** Forgets a live frame. Not ok means that the process was terminated, which
        happens exactly for a live frame that is not evictable. */
    method Remove(f: nat) returns (ok: bool)
      requires Valid()
      modifies this
      ensures ok <==> f !in old(aliveMap) || old(aliveMap)[f].evictable
      ensures ok ==> Valid() && Forgotten(old(Model()), f, Model())
      ensures !ok ==> Model() == old(Model())
      ensures ok ==> Some(Model()) == ArcPolicy.Remove(old(Model()), f)
    {
      hide Inv;
      RemoveKeeps(Model(), f);
      if f !in aliveMap {
        return true;
      }
      if !aliveMap[f].evictable {
        return false;
      }
      if aliveMap[f].tag.Mru? {
        mru := Without(mru, f);
      } else {
        mfu := Without(mfu, f);
      }
      aliveMap := aliveMap - {f};
      currSize := currSize - 1;
      ok := true;
    }
  }
}
