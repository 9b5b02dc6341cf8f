/** Pull operators over a table: sequential scan, filter and projection, each
    yielding its rows in batches and keeping what it has not yet handed on. */
module Executors {
  import opened Config
  import opened Bytes
  import opened HeapChain
  import opened TableHeap
  import opened RowLists

  datatype Kind = Scan | Filter(pred: Predicate) | Project(expr: Expression)

  class Executor {
    const kind: Kind
    const child: Executor?
    const iter: TableIterator?
    var childRows: seq<Row>
    var childOffset: nat
    ghost const leaf: TableIterator
    ghost const repr: set<object>

    // -------------------------------------------------------------- structure

    /** This operator's own place in the chain. */
    ghost predicate Node()
      reads this
    {
      && this in repr && leaf in repr && leaf.heap !in repr
      && childOffset <= |childRows|
      && match kind
         case Scan => iter == leaf
         case _ => child != null && child in repr && child.repr < repr && this !in child.repr && child.leaf == leaf
    }

    /** The operators form a chain that ends in a scan of a table. */
    ghost predicate Shaped()
      reads this, repr
      decreases repr
    {
      Node() && (!kind.Scan? ==> child.Shaped())
    }

    /** Child rows fetched earlier and not yet handed on. */
    ghost function Buffered(): seq<Row>
      requires childOffset <= |childRows|
      reads this
    {
      if childOffset == 0 then [] else childRows[childOffset..]
    }

    /** The rows this operator has yet to yield if its scan still has `rest`. */
    ghost function Through(rest: seq<Row>): seq<Row>
      requires Shaped()
      reads this, repr
      decreases repr
    {
      match kind
      case Scan => rest
      case Filter(p) => Keep(p, Buffered() + child.Through(rest))
      case Project(f) => Apply(f, Buffered() + child.Through(rest))
    }

    /** Buffered rows lie behind the scan's position. */
    ghost predicate Passed()
      requires Shaped()
      reads this, repr
      decreases repr
    {
      !kind.Scan? ==> child.Passed() && forall row :: row in Buffered() ==> Before(row.rid, leaf.current)
    }

    /** Buffers left by batches of size `n`. */
    ghost predicate Batched(n: nat)
      requires Shaped()
      reads this, repr
      decreases repr
    {
      !kind.Scan? ==> child.Batched(n) && (childOffset != 0 ==> |childRows| <= n)
    }

    ghost predicate Valid()
      reads this, repr, leaf, leaf.heap
    {
      Shaped() && leaf.Funded() && Passed()
    }

    ghost function Pending(): seq<Row>
      requires Valid()
      reads this, repr, leaf, leaf.heap
    {
      Through(leaf.Remaining())
    }

    // -------------------------------------------------------------- construction

    constructor ScanOf(it: TableIterator)
      requires it.Funded()
      ensures Valid() && kind == Scan && leaf == it && Pending() == it.Remaining()
      ensures forall n :: Batched(n)
      ensures fresh(repr - {it})
    {
      kind, child, iter, leaf := Scan, null, it, it;
      childRows, childOffset := [], 0;
      repr := {this, it};
    }

    constructor Over(k: Kind, c: Executor)
      requires !k.Scan? && c.Valid()
      ensures Valid() && kind == k && child == c && leaf == c.leaf
      ensures Pending() == match k case Filter(p) => Keep(p, c.Pending()) case Project(f) => Apply(f, c.Pending())
      ensures forall n :: c.Batched(n) ==> Batched(n)
      ensures fresh(repr - c.repr)
    {
      hide TableIterator.Funded, TableIterator.Valid, TableIterator.Remaining, TableHeap.Valid, Keep, Apply;
      kind, child, iter, leaf := k, c, null, c.leaf;
      childRows, childOffset := [], 0;
      repr := {this} + c.repr;
      new;
      assert [] + c.Pending() == c.Pending();
    }

    // -------------------------------------------------------------- pulling batches

    /** The batch contract: `rows` is the front of what was pending, at most `n`
        of them, and fewer only if nothing is left; all yielded rows lie behind the
        scan, which never moves back. */
    twostate predicate Pulled(n: nat, ok: bool, rows: seq<Row>)
      requires old(Valid())
      reads this, repr, leaf, leaf.heap
    {
      && Valid()
      && rows + Pending() == old(Pending())
      && (ok <==> rows != [])
      && (!ok ==> Pending() == [])
      && (|rows| < n ==> Pending() == [])
      && (old(Batched(n)) ==> |rows| <= n && Batched(n))
      && !Before(leaf.current, old(leaf.current))
      && forall i :: 0 <= i < |rows| ==> Before(rows[i].rid, leaf.current)
    }

    method Next(n: nat) returns (ok: bool, rows: seq<Row>)
      requires Valid() && n >= 1
      modifies repr
      ensures Pulled(n, ok, rows)
      decreases repr, 3
    {
      match kind
      case Scan =>
        rows := iter.Batch(n);
        ok := rows != [];
      case Filter(p) =>
        ok, rows := NextFilter(p, n);
      case Project(f) =>
        ok, rows := NextProject(f, n);
    }

    /** All buffered rows that pass the predicate. */
    method SiftBuffer(p: Predicate) returns (rows: seq<Row>)
      requires childOffset <= |childRows|
      ensures rows == Keep(p, Buffered())
    {
      rows := [];
      if childOffset != 0 {
        var buffer := childRows[childOffset..];
        for i := 0 to |buffer|
          invariant rows == Keep(p, buffer[..i])
        {
          KeepStep(p, buffer, i);
          if p(buffer[i].data) {
            rows := rows + [buffer[i]];
          }
        }
        assert buffer[..|buffer|] == buffer;
      }
    }

    /** Adds rows of the fetched batch that pass to `out`, stopping as soon as an
        addition leaves `n` or more; `next` is where the rest of the batch starts. */
    method Sift(p: Predicate, out: seq<Row>, n: nat) returns (rows: seq<Row>, next: nat, full: bool)
      ensures next <= |childRows| && rows == out + Keep(p, childRows[..next])
      ensures if full then |rows| >= n && next > 0 else next == |childRows|
      ensures |out| < n ==> |rows| <= n && (full <==> |rows| == n)
      ensures full ==> rows != []
    {
      rows := out;
      for i := 0 to |childRows|
        invariant rows == out + Keep(p, childRows[..i])
        invariant |out| < n ==> |rows| < n
      {
        KeepStep(p, childRows, i);
        if p(childRows[i].data) {
          rows := rows + [childRows[i]];
          if |rows| >= n {
            return rows, i + 1, true;
          }
        }
      }
      assert childRows[..|childRows|] == childRows;
      next, full := |childRows|, false;
    }

    /** Fetches the next batch of the child into the emptied buffer. */
    method Refill(n: nat) returns (status: bool)
      requires Valid() && !kind.Scan? && n >= 1 && childOffset == 0
      modifies repr
      ensures Valid() && childOffset == 0
      ensures childRows + child.Pending() == old(child.Pending())
      ensures status <==> childRows != []
      ensures !status ==> child.Pending() == []
      ensures |childRows| < n ==> child.Pending() == []
      ensures old(child.Batched(n)) ==> |childRows| <= n && child.Batched(n)
      ensures !Before(leaf.current, old(leaf.current))
      ensures forall i :: 0 <= i < |childRows| ==> Before(childRows[i].rid, leaf.current)
      decreases repr, 0
    {
      hide Executor.Shaped, Executor.Through, Executor.Passed, Executor.Batched, Before;
      hide TableIterator.Funded, TableIterator.Valid, TableIterator.Remaining, TableHeap.Valid;
      PendingOver();
      var batch;
      status, batch := child.Next(n);
      childRows := batch;
      ValidOver();
    }

    /** No operator owns the table it scans. */
    lemma Apart()
      requires Valid()
      ensures this in repr && leaf in repr && leaf.heap !in repr && leaf.heap.Valid()
    {
    }

    /** An operator is valid if its child is and its buffer lies behind the scan. */
    lemma ValidOver()
      requires !kind.Scan? && Node() && child.Valid()
      requires forall row :: row in Buffered() ==> Before(row.rid, leaf.current)
      ensures Valid()
    {
    }

    /** What an operator still owes, in terms of its buffer and its child. */
    lemma PendingOver()
      requires Valid() && !kind.Scan?
      ensures Node() && Shaped() && child != null && child.Valid() && child.leaf == leaf
      ensures Pending() == match kind
                           case Filter(p) => Keep(p, Buffered() + child.Pending())
                           case Project(f) => Apply(f, Buffered() + child.Pending())
      ensures childOffset == 0 ==> Buffered() + child.Pending() == child.Pending()
      ensures forall n :: Batched(n) <==> child.Batched(n) && (childOffset != 0 ==> |childRows| <= n)
    {
    }

    /** Sifts the batch just fetched onto `out` and keeps what it did not reach. */
    method SiftRound(p: Predicate, n: nat, out: seq<Row>) returns (full: bool, rows: seq<Row>)
      requires Valid() && kind == Filter(p) && n >= 1 && childOffset == 0
      requires forall i :: 0 <= i < |childRows| ==> Before(childRows[i].rid, leaf.current)
      modifies this`childOffset
      ensures Valid()
      ensures rows + Pending() == out + Keep(p, childRows + child.Pending())
      ensures child.Pending() == old(child.Pending())
      ensures !full ==> childOffset == 0
      ensures full ==> |rows| >= n
      ensures old(child.Batched(n)) && |childRows| <= n ==> Batched(n)
      ensures |out| < n ==> |rows| <= n && (full <==> |rows| == n)
      ensures out <= rows
      ensures forall i :: |out| <= i < |rows| ==> Before(rows[i].rid, leaf.current)
    {
      hide Keep;
      hide TableIterator.Funded, TableIterator.Valid, TableIterator.Remaining, TableHeap.Valid;
      var next;
      rows, next, full := Sift(p, out, n);
      KeepRound(p, out, childRows, next, child.Pending());
      KeepFrom(p, childRows[..next]);
      if full && next < |childRows| {
        childOffset := next;
      }
      assert Buffered() == childRows[next..];
    }

    /** One round of the filter's loop on an empty buffer: fetches a batch of the
        child and sifts it onto `out`. */
    method FilterRound(p: Predicate, n: nat, out: seq<Row>) returns (more: bool, full: bool, rows: seq<Row>)
      requires Valid() && kind == Filter(p) && n >= 1 && childOffset == 0
      modifies repr
      ensures Valid() && child.Valid()
      ensures rows + Pending() == out + old(Pending())
      ensures !full ==> childOffset == 0
      ensures !more ==> !full && rows == out && Pending() == []
      ensures more ==> |child.Pending()| < old(|child.Pending()|)
      ensures full ==> |rows| >= n
      ensures old(Batched(n)) ==> Batched(n)
      ensures |out| < n ==> |rows| <= n && (full <==> |rows| == n)
      ensures !Before(leaf.current, old(leaf.current))
      ensures out <= rows
      ensures forall i :: |out| <= i < |rows| ==> Before(rows[i].rid, leaf.current)
      decreases repr, 1
    {
      hide Executor.Through, Executor.Passed, Executor.Batched, Executor.Shaped, Executor.Valid, Executor.Pending, Executor.Node, Executor.Buffered, Before;
      hide TableIterator.Funded, TableIterator.Valid, TableIterator.Remaining, TableHeap.Valid, Keep;
      PendingOver();
      more := Refill(n);
      PendingOver();
      if more {
        full, rows := SiftRound(p, n, out);
      } else {
        full, rows := false, out;
        assert childRows + child.Pending() == [];
        KeepFrom(p, []);
      }
    }

    /** Hands on what is left of the last batch and empties the buffer. */
    method FlushFilter(p: Predicate, ghost n: nat) returns (rows: seq<Row>)
      requires Valid() && kind == Filter(p)
      modifies this`childOffset
      ensures Valid() && childOffset == 0 && child.Valid()
      ensures rows + Pending() == old(Pending())
      ensures n >= 1 && old(Batched(n)) ==> Batched(n) && |rows| < n
      ensures forall i :: 0 <= i < |rows| ==> Before(rows[i].rid, leaf.current)
    {
      hide Keep;
      hide TableIterator.Funded, TableIterator.Valid, TableIterator.Remaining, TableHeap.Valid;
      rows := SiftBuffer(p);
      KeepConcat(p, Buffered(), child.Pending());
      KeepFrom(p, Buffered());
      childOffset := 0;
      assert Buffered() + child.Pending() == child.Pending();
    }

    method NextFilter(p: Predicate, n: nat) returns (ok: bool, rows: seq<Row>)
      requires Valid() && kind == Filter(p) && n >= 1
      modifies repr
      ensures Pulled(n, ok, rows)
      decreases repr, 2
    {
      hide Executor.Through, Executor.Passed, Executor.Batched, Executor.Shaped, Executor.Pending;
      hide TableIterator.Funded, TableIterator.Valid, TableIterator.Remaining, TableHeap.Valid;
      PendingOver();
      ghost var pending, batched := Pending(), Batched(n);
      rows := FlushFilter(p, n);
      while true
        invariant Valid() && childOffset == 0 && child.Valid()
        invariant rows + Pending() == pending
        invariant batched ==> Batched(n) && |rows| < n
        invariant !Before(leaf.current, old(leaf.current))
        invariant forall i :: 0 <= i < |rows| ==> Before(rows[i].rid, leaf.current)
        decreases |child.Pending()|
      {
        var more, full;
        more, full, rows := FilterRound(p, n, rows);
        if !more {
          return rows != [], rows;
        }
        if full {
          return true, rows;
        }
      }
    }

    // -------------------------------------------------------------- projection

    /** All buffered rows, rewritten. */
    method MapBuffer(f: Expression) returns (rows: seq<Row>)
      requires childOffset <= |childRows|
      ensures rows == Apply(f, Buffered())
    {
      rows := [];
      if childOffset != 0 {
        var buffer := childRows[childOffset..];
        for i := 0 to |buffer|
          invariant rows == Apply(f, buffer[..i])
        {
          ApplyStep(f, buffer, i);
          rows := rows + [Row(buffer[i].rid, f(buffer[i].data))];
        }
        assert buffer[..|buffer|] == buffer;
      }
    }

    /** Hands on what is left of the last batch and empties the buffer. */
    method FlushProject(f: Expression, ghost n: nat) returns (rows: seq<Row>)
      requires Valid() && kind == Project(f)
      modifies this`childOffset
      ensures Valid() && childOffset == 0
      ensures rows + Pending() == old(Pending())
      ensures n >= 1 && old(Batched(n)) ==> Batched(n) && |rows| < n
      ensures forall i :: 0 <= i < |rows| ==> Before(rows[i].rid, leaf.current)
    {
      hide Apply;
      hide TableIterator.Funded, TableIterator.Valid, TableIterator.Remaining, TableHeap.Valid;
      rows := MapBuffer(f);
      ApplyConcat(f, Buffered(), child.Pending());
      ApplyRids(f, Buffered());
      childOffset := 0;
      assert Buffered() + child.Pending() == child.Pending();
    }

    /** Adds rewritten rows of the fetched batch to `out`, stopping as soon as an
        addition leaves `n` or more. */
    method Emit(f: Expression, out: seq<Row>, n: nat) returns (rows: seq<Row>, next: nat)
      ensures next <= |childRows| && rows == out + Apply(f, childRows[..next])
      ensures next < |childRows| ==> next > 0 && |rows| >= n
      ensures childRows != [] ==> rows != []
      ensures |out| < n ==> |rows| <= n
    {
      rows := out;
      for i := 0 to |childRows|
        invariant rows == out + Apply(f, childRows[..i])
        invariant |out| < n ==> |rows| < n
      {
        ApplyStep(f, childRows, i);
        rows := rows + [Row(childRows[i].rid, f(childRows[i].data))];
        if |rows| >= n {
          return rows, i + 1;
        }
      }
      assert childRows[..|childRows|] == childRows;
      next := |childRows|;
    }

    method EmitRound(f: Expression, n: nat, out: seq<Row>) returns (rows: seq<Row>)
      requires Valid() && kind == Project(f) && n >= 1 && childOffset == 0
      requires forall i :: 0 <= i < |childRows| ==> Before(childRows[i].rid, leaf.current)
      modifies this`childOffset
      ensures Valid()
      ensures rows + Pending() == out + Apply(f, childRows + child.Pending())
      ensures childRows != [] ==> rows != []
      ensures |rows| < n ==> |childRows| < n && childOffset == 0
      ensures old(child.Batched(n)) && |childRows| <= n ==> Batched(n)
      ensures |out| < n ==> |rows| <= n
      ensures out <= rows
      ensures forall i :: |out| <= i < |rows| ==> Before(rows[i].rid, leaf.current)
    {
      hide Apply;
      hide TableIterator.Funded, TableIterator.Valid, TableIterator.Remaining, TableHeap.Valid;
      var next;
      rows, next := Emit(f, out, n);
      ApplyRound(f, out, childRows, next, child.Pending());
      ApplyRids(f, childRows[..next]);
      if next < |childRows| {
        childOffset := next;
      }
      assert Buffered() == childRows[next..];
    }

    method ProjectRound(f: Expression, n: nat, out: seq<Row>) returns (more: bool, rows: seq<Row>)
      requires Valid() && kind == Project(f) && n >= 1 && childOffset == 0
      modifies repr
      ensures Valid()
      ensures rows + Pending() == out + old(Pending())
      ensures !more ==> rows == out && Pending() == []
      ensures more ==> rows != []
      ensures |rows| < n ==> Pending() == []
      ensures old(Batched(n)) ==> Batched(n)
      ensures |out| < n ==> |rows| <= n
      ensures !Before(leaf.current, old(leaf.current))
      ensures out <= rows
      ensures forall i :: |out| <= i < |rows| ==> Before(rows[i].rid, leaf.current)
      decreases repr, 1
    {
      hide Executor.Through, Executor.Passed, Executor.Batched, Executor.Shaped, Executor.Valid, Executor.Pending, Executor.Node, Executor.Buffered, Before;
      hide TableIterator.Funded, TableIterator.Valid, TableIterator.Remaining, TableHeap.Valid;
      PendingOver();
      more := Refill(n);
      PendingOver();
      if more {
        rows := EmitRound(f, n, out);
      } else {
        rows := out;
        assert childRows + child.Pending() == [];
      }
    }

    method NextProject(f: Expression, n: nat) returns (ok: bool, rows: seq<Row>)
      requires Valid() && kind == Project(f) && n >= 1
      modifies repr
      ensures Pulled(n, ok, rows)
      decreases repr, 2
    {
      hide Executor.Through, Executor.Passed, Executor.Batched, Executor.Shaped, Executor.Valid, Executor.Pending;
      PendingOver();
      ghost var batched := Batched(n);
      rows := FlushProject(f, n);
      var more;
      more, rows := ProjectRound(f, n, rows);
      ok := rows != [];
    }
  }
}
