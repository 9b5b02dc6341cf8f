/** List filter and map over rows, which the operators must agree with. */
module RowLists {
  import opened Config
  import opened Bytes
  import opened HeapChain

  type Predicate = seq<byte> -> bool
  type Expression = seq<byte> -> seq<byte>

  /** The row itself if it passes, else nothing. */
  function Pass(p: Predicate, row: Row): seq<Row> {
    if p(row.data) then [row] else []
  }

  function Keep(p: Predicate, rows: seq<Row>): seq<Row> {
    if rows == [] then [] else Pass(p, rows[0]) + Keep(p, rows[1..])
  }

  function Apply(f: Expression, rows: seq<Row>): (r: seq<Row>)
    ensures |r| == |rows|
  {
    if rows == [] then []
    else [Row(rows[0].rid, f(rows[0].data))] + Apply(f, rows[1..])
  }

  lemma {:induction false} KeepConcat(p: Predicate, a: seq<Row>, b: seq<Row>)
    ensures Keep(p, a + b) == Keep(p, a) + Keep(p, b)
  {
    hide Pass;
    if a == [] {
      assert a + b == b;
    } else {
      assert (a + b)[1..] == a[1..] + b;
      KeepConcat(p, a[1..], b);
      assert Pass(p, a[0]) + (Keep(p, a[1..]) + Keep(p, b)) == (Pass(p, a[0]) + Keep(p, a[1..])) + Keep(p, b);
    }
  }

  lemma {:induction false} ApplyConcat(f: Expression, a: seq<Row>, b: seq<Row>)
    ensures Apply(f, a + b) == Apply(f, a) + Apply(f, b)
  {
    if a == [] {
      assert a + b == b;
    } else {
      assert (a + b)[1..] == a[1..] + b;
      ApplyConcat(f, a[1..], b);
    }
  }

  /** Filtering a batch up to `next` now and the rest of it later is filtering
      everything the child had left. */
  lemma KeepRound(p: Predicate, out: seq<Row>, batch: seq<Row>, next: nat, rest: seq<Row>)
    requires next <= |batch|
    ensures (out + Keep(p, batch[..next])) + Keep(p, batch[next..] + rest) == out + Keep(p, batch + rest)
  {
    assert batch + rest == batch[..next] + (batch[next..] + rest);
    KeepConcat(p, batch[..next], batch[next..] + rest);
  }

  lemma ApplyRound(f: Expression, out: seq<Row>, batch: seq<Row>, next: nat, rest: seq<Row>)
    requires next <= |batch|
    ensures (out + Apply(f, batch[..next])) + Apply(f, batch[next..] + rest) == out + Apply(f, batch + rest)
  {
    assert batch + rest == batch[..next] + (batch[next..] + rest);
    ApplyConcat(f, batch[..next], batch[next..] + rest);
  }

  lemma {:induction false} KeepFrom(p: Predicate, rows: seq<Row>)
    ensures |Keep(p, rows)| <= |rows|
    ensures forall i :: 0 <= i < |Keep(p, rows)| ==> Keep(p, rows)[i] in rows
  {
    if rows != [] {
      KeepFrom(p, rows[1..]);
    }
  }

  lemma KeepStep(p: Predicate, rows: seq<Row>, i: nat)
    requires i < |rows|
    ensures Keep(p, rows[..i + 1]) == Keep(p, rows[..i]) + Pass(p, rows[i])
  {
    assert rows[..i + 1] == rows[..i] + [rows[i]];
    KeepConcat(p, rows[..i], [rows[i]]);
  }

  lemma ApplyStep(f: Expression, rows: seq<Row>, i: nat)
    requires i < |rows|
    ensures Apply(f, rows[..i + 1]) == Apply(f, rows[..i]) + [Row(rows[i].rid, f(rows[i].data))]
  {
    assert rows[..i + 1] == rows[..i] + [rows[i]];
    ApplyConcat(f, rows[..i], [rows[i]]);
  }

  lemma {:induction false} KeepMembers(p: Predicate, rows: seq<Row>)
    ensures forall x :: x in Keep(p, rows) <==> x in rows && p(x.data)
  {
    if rows != [] {
      KeepMembers(p, rows[1..]);
      assert rows == [rows[0]] + rows[1..];
    }
  }

  lemma {:induction false} KeepOrdered(p: Predicate, rows: seq<Row>)
    requires Ordered(rows)
    ensures Ordered(Keep(p, rows))
  {
    if rows != [] {
      var tail := rows[1..];
      KeepOrdered(p, tail);
      KeepFrom(p, tail);
      var kept := Keep(p, tail);
      forall i | 0 <= i < |kept|
        ensures Before(rows[0].rid, kept[i].rid)
      {
        var j :| 0 <= j < |tail| && tail[j] == kept[i];
        assert rows[j + 1] == kept[i];
      }
    }
  }

  lemma {:induction false} ApplyRids(f: Expression, rows: seq<Row>)
    ensures forall i :: 0 <= i < |rows| ==> Apply(f, rows)[i] == Row(rows[i].rid, f(rows[i].data))
  {
    if rows != [] {
      ApplyRids(f, rows[1..]);
    }
  }

  lemma ApplyOrdered(f: Expression, rows: seq<Row>)
    requires Ordered(rows)
    ensures Ordered(Apply(f, rows))
  {
    ApplyRids(f, rows);
  }
}
