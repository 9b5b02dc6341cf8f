/** Histories performed on the bytes of a page. */
module PageRuns {
  import opened Config
  import opened Bytes
  import opened PageLayout
  import opened PageHistory
  import opened SlottedPage

  /** Performs a history on a page object. What its bytes then mean is what a plain
      map would hold after the same reported effects. */
  method Perform(page: SlottedPage, ops: seq<Op>) returns (effects: seq<Effect>)
    requires page.Valid() && Counted(page.Value())
    requires forall i :: 0 <= i < |ops| && ops[i].Ins? ==> ops[i].t != [] && |ops[i].t| + SLOT_SIZE < U32_LIMIT
    modifies page.buf
    ensures page.Valid() && Counted(page.Value())
    ensures (page.Value(), effects) == Run(old(page.Value()), ops)
    ensures Contents(page.Value()) == Replay(old(Contents(page.Value())), effects)
  {
    hide SlottedPage.Valid, Live, Meaning, Decode, Insert, PageLayout.Delete, Fits, Run;
    ghost var before := page.Value();
    effects := [];
    PageInCapacity(page);
    HistoryRefinesMap(before, ops);
    RunNone(before);
    assert ops[..0] == [];
    for k := 0 to |ops|
      invariant page.Valid()
      invariant (page.Value(), effects) == Run(before, ops[..k])
    {
      RunStep(before, ops, k);
      match ops[k] {
        case Ins(t) =>
          var ok, rid := page.InsertTuple(t);
          effects := effects + [if ok then Bound(rid.slotNum, t) else Refused];
        case Del(slot) =>
          var id := page.PageId();
          var r := page.DeleteTuple(RecordId(id, slot));
          effects := effects + [if r.Success? then Freed(slot) else Refused];
      }
    }
    assert ops[..|ops|] == ops;
  }

  lemma PageInCapacity(page: SlottedPage)
    requires page.Valid()
    ensures InCapacity(page.Value())
  {
    SoundInCapacity(page.Fields(), page.buf[..]);
  }

  lemma RunNone(p: Page)
    ensures Run(p, []) == (p, [])
  {
  }

  /** One more operation at the end of a history. */
  lemma {:induction false} RunMore(p: Page, ops: seq<Op>, op: Op)
    ensures var (q, es) := Run(p, ops);
            Run(p, ops + [op]) == (Step(q, op).0, es + [Step(q, op).1])
    decreases |ops|
  {
    if ops == [] {
      var (p', e) := Step(p, op);
      assert [] + [op] == [op] && [op][1..] == [];
      assert Run(p', []) == (p', []);
      assert [e] + [] == [] + [e];
    } else {
      assert (ops + [op])[1..] == ops[1..] + [op];
      var (p', e) := Step(p, ops[0]);
      RunMore(p', ops[1..], op);
      var (q, es) := Run(p', ops[1..]);
      assert [e] + (es + [Step(q, op).1]) == ([e] + es) + [Step(q, op).1];
    }
  }

  lemma RunStep(p: Page, ops: seq<Op>, k: nat)
    requires k < |ops|
    ensures var (q, es) := Run(p, ops[..k]);
            Run(p, ops[..k + 1]) == (Step(q, ops[k]).0, es + [Step(q, ops[k]).1])
  {
    assert ops[..k + 1] == ops[..k] + [ops[k]];
    RunMore(p, ops[..k], ops[k]);
  }
}
