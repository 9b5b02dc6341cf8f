/** The hash table of accumulators, one row of accumulators for each group. */
module AggregationTable {
  import opened Config
  import opened CheckedArithmetic
  import opened Aggregation

  /** Group key and arguments of one input row. Keys without NULLs are equal if
      their values are. */
  datatype Row<K> = Row(key: K, args: seq<SqlInt>)

  function FreshStates(funcs: seq<Function>): seq<State> {
    seq(|funcs|, _ => Fresh())
  }

  /** A group's accumulators after the first `n` functions have seen a row; a
      function without an argument sees nothing. */
  function UpdateFirst(funcs: seq<Function>, states: seq<State>, args: seq<SqlInt>, n: nat): (r: Result<seq<State>, Error>)
    requires n <= |funcs| == |states|
    ensures r.Success? ==> |r.value| == |states|
  {
    if n == 0 then Success(states)
    else
      match UpdateFirst(funcs, states, args, n - 1)
      case Failure(e) => Failure(e)
      case Success(s) =>
        if n - 1 >= |args| then Success(s)
        else
          match Update(funcs[n - 1], s[n - 1], args[n - 1])
          case Failure(e) => Failure(e)
          case Success(st) => Success(s[n - 1 := st])
  }

  ghost predicate Shaped<K>(funcs: seq<Function>, t: map<K, seq<State>>) {
    forall k :: k in t ==> |t[k]| == |funcs|
  }

  function StatesOf<K(==)>(funcs: seq<Function>, t: map<K, seq<State>>, k: K): seq<State> {
    if k in t then t[k] else FreshStates(funcs)
  }

  function Insert<K(==)>(funcs: seq<Function>, t: map<K, seq<State>>, row: Row<K>): (r: Result<map<K, seq<State>>, Error>)
    requires Shaped(funcs, t)
    ensures r.Success? ==> Shaped(funcs, r.value)
  {
    match UpdateFirst(funcs, StatesOf(funcs, t, row.key), row.args, |funcs|)
    case Failure(e) => Failure(e)
    case Success(s) => Success(t[row.key := s])
  }

  /** The table built from these rows, in order. */
  function Built<K(==)>(funcs: seq<Function>, rows: seq<Row<K>>): (r: Result<map<K, seq<State>>, Error>)
    ensures r.Success? ==> Shaped(funcs, r.value)
  {
    if rows == [] then Success(map[])
    else
      match Built(funcs, rows[..|rows| - 1])
      case Failure(e) => Failure(e)
      case Success(t) => Insert(funcs, t, rows[|rows| - 1])
  }

  class AggregationHashTable<K(==)> {
    const funcs: seq<Function>
    var table: map<K, seq<State>>

    ghost predicate Valid()
      reads this
    {
      Shaped(funcs, table)
    }

    constructor (funcs: seq<Function>)
      ensures Valid() && table == map[] && this.funcs == funcs
    {
      this.funcs, table := funcs, map[];
    }

    /** Adds one row to its group, making the group if it is new. If an update
        throws, other groups are unchanged. */
    method InsertCombine(row: Row<K>) returns (error: Option<Error>)
      requires Valid()
      modifies this
      ensures Valid()
      ensures Insert(funcs, old(table), row) == if error.None? then Success(table) else Failure(error.value)
      ensures forall k :: k in table && k != row.key <==> k in old(table) && k != row.key
      ensures forall k :: k in table && k != row.key ==> table[k] == old(table)[k]
    {
      if row.key !in table {
        table := table[row.key := FreshStates(funcs)];
      }
      ghost var states := table[row.key];
      for i := 0 to |funcs|
        invariant Valid() && row.key in table
        invariant UpdateFirst(funcs, states, row.args, i) == Success(table[row.key])
        invariant table == old(table)[row.key := table[row.key]]
      {
        if i < |row.args| {
          var r := Update(funcs[i], table[row.key][i], row.args[i]);
          if r.Failure? {
            FailsAtEnd(funcs, states, row.args, i + 1, |funcs|);
            return Some(r.error);
          }
          table := table[row.key := table[row.key][i := r.value]];
        }
      }
      error := None;
    }
  }

  lemma {:induction false} FailsAtEnd(funcs: seq<Function>, states: seq<State>, args: seq<SqlInt>, i: nat, n: nat)
    requires i <= n <= |funcs| == |states| && UpdateFirst(funcs, states, args, i).Failure?
    ensures UpdateFirst(funcs, states, args, n) == UpdateFirst(funcs, states, args, i)
  {
    if i < n {
      FailsAtEnd(funcs, states, args, i, n - 1);
    }
  }

  // ---------------------------------------------------------------- grouping, then folding

  /** The arguments of function `i` in the rows of group `k`. */
  function GroupColumn<K(==)>(rows: seq<Row<K>>, k: K, i: nat): seq<SqlInt> {
    if rows == [] then []
    else
      var rest := GroupColumn(rows[..|rows| - 1], k, i);
      var row := rows[|rows| - 1];
      if row.key == k && i < |row.args| then rest + [row.args[i]] else rest
  }

  ghost function Keys<K>(rows: seq<Row<K>>): set<K> {
    set i | 0 <= i < |rows| :: rows[i].key
  }

  /** Each group's accumulators are those of folding the group's rows. */
  ghost predicate Grouped<K>(funcs: seq<Function>, rows: seq<Row<K>>, t: map<K, seq<State>>) {
    && t.Keys == Keys(rows)
    && Shaped(funcs, t)
    && forall k, i :: k in t && 0 <= i < |funcs| ==> Fold(funcs[i], GroupColumn(rows, k, i)) == Success(t[k][i])
  }

  /** Some group's fold throws. */
  ghost predicate SomeFoldThrows<K(!new)>(funcs: seq<Function>, rows: seq<Row<K>>) {
    exists k, i :: 0 <= i < |funcs| && Fold(funcs[i], GroupColumn(rows, k, i)).Failure?
  }

  lemma {:induction false} UpdateEach(funcs: seq<Function>, states: seq<State>, args: seq<SqlInt>, n: nat)
    requires n <= |funcs| == |states|
    ensures var r := UpdateFirst(funcs, states, args, n);
            && (r.Success? ==> forall i :: 0 <= i < |states| ==>
                  if i < n && i < |args| then Update(funcs[i], states[i], args[i]) == Success(r.value[i])
                  else r.value[i] == states[i])
            && (r.Failure? ==> exists i :: 0 <= i < n && i < |args| && Update(funcs[i], states[i], args[i]).Failure?)
  {
    if n > 0 {
      UpdateEach(funcs, states, args, n - 1);
    }
  }

  lemma {:induction false} NewGroup<K>(rows: seq<Row<K>>, k: K, i: nat)
    requires k !in Keys(rows)
    ensures GroupColumn(rows, k, i) == []
  {
    if rows != [] {
      var init := rows[..|rows| - 1];
      assert rows[|rows| - 1].key in Keys(rows);
      assert forall j :: 0 <= j < |init| ==> init[j].key == rows[j].key && rows[j].key in Keys(rows);
      NewGroup(init, k, i);
    }
  }

  lemma KeysStep<K>(rows: seq<Row<K>>, row: Row<K>)
    ensures Keys(rows + [row]) == Keys(rows) + {row.key}
  {
    var all := rows + [row];
    assert all[|rows|] == row && forall i :: 0 <= i < |rows| ==> all[i] == rows[i];
    assert row.key in Keys(all);
    forall k | k in Keys(rows)
      ensures k in Keys(all)
    {
      var i :| 0 <= i < |rows| && rows[i].key == k;
      assert all[i].key == k;
    }
  }

  lemma ColumnStep<K>(rows: seq<Row<K>>, row: Row<K>, k: K, i: nat)
    ensures GroupColumn(rows + [row], k, i) ==
            if row.key == k && i < |row.args| then GroupColumn(rows, k, i) + [row.args[i]] else GroupColumn(rows, k, i)
  {
    assert (rows + [row])[..|rows|] == rows;
  }

  /** The accumulators a row meets are those of its group so far. */
  lemma StatesSoFar<K>(funcs: seq<Function>, rows: seq<Row<K>>, t: map<K, seq<State>>, k: K)
    requires Grouped(funcs, rows, t)
    ensures |StatesOf(funcs, t, k)| == |funcs|
    ensures forall i :: 0 <= i < |funcs| ==> Fold(funcs[i], GroupColumn(rows, k, i)) == Success(StatesOf(funcs, t, k)[i])
  {
    if k !in t {
      forall i | 0 <= i < |funcs|
        ensures Fold(funcs[i], GroupColumn(rows, k, i)) == Success(Fresh())
      {
        NewGroup(rows, k, i);
      }
    }
  }

  /** How one more row changes the fold of a group. */
  lemma RowFolds<K>(fn: Function, rows: seq<Row<K>>, row: Row<K>, k: K, i: nat)
    ensures Fold(fn, GroupColumn(rows + [row], k, i)) ==
            if row.key != k || i >= |row.args| || Fold(fn, GroupColumn(rows, k, i)).Failure?
            then Fold(fn, GroupColumn(rows, k, i))
            else Update(fn, Fold(fn, GroupColumn(rows, k, i)).value, row.args[i])
  {
    hide Update;
    ColumnStep(rows, row, k, i);
    if row.key == k && i < |row.args| {
      FoldStep(fn, GroupColumn(rows, k, i), row.args[i]);
    }
  }

  /** Inserting a row keeps the table grouped, and throws exactly if the row's
      group then has a fold that throws. */
  lemma InsertGroups<K(!new)>(funcs: seq<Function>, rows: seq<Row<K>>, t: map<K, seq<State>>, row: Row<K>)
    requires Grouped(funcs, rows, t)
    ensures Insert(funcs, t, row).Success? ==> Grouped(funcs, rows + [row], Insert(funcs, t, row).value)
    ensures Insert(funcs, t, row).Failure? ==> SomeFoldThrows(funcs, rows + [row])
  {
    hide Update, Fold, UpdateFirst, GroupColumn, Keys, FreshStates, StatesOf;
    StatesSoFar(funcs, rows, t, row.key);
    var states := StatesOf(funcs, t, row.key);
    UpdateEach(funcs, states, row.args, |funcs|);
    KeysStep(rows, row);
    forall k, i | 0 <= i < |funcs|
      ensures Fold(funcs[i], GroupColumn(rows + [row], k, i)) ==
              if row.key != k || i >= |row.args| || Fold(funcs[i], GroupColumn(rows, k, i)).Failure?
              then Fold(funcs[i], GroupColumn(rows, k, i))
              else Update(funcs[i], Fold(funcs[i], GroupColumn(rows, k, i)).value, row.args[i])
    {
      RowFolds(funcs[i], rows, row, k, i);
    }
  }

  /** The table built row by row is the input grouped by key and then folded; it
      is built without throwing exactly if no group's fold throws. */
  lemma {:induction false} GroupThenFold<K(!new)>(funcs: seq<Function>, rows: seq<Row<K>>)
    ensures Built(funcs, rows).Success? <==> !SomeFoldThrows(funcs, rows)
    ensures Built(funcs, rows).Success? ==> Grouped(funcs, rows, Built(funcs, rows).value)
  {
    hide Insert, Fold, GroupColumn, Update;
    if rows == [] {
      EmptyGrouped<K>(funcs, rows);
    } else {
      var init, row := rows[..|rows| - 1], rows[|rows| - 1];
      assert rows == init + [row];
      GroupThenFold(funcs, init);
      if Built(funcs, init).Success? {
        InsertGroups(funcs, init, Built(funcs, init).value, row);
        if Built(funcs, rows).Success? {
          NothingThrows(funcs, rows, Built(funcs, rows).value);
        }
      } else {
        StillThrows(funcs, init, row);
      }
    }
  }

  lemma EmptyGrouped<K(!new)>(funcs: seq<Function>, rows: seq<Row<K>>)
    requires rows == []
    ensures Grouped(funcs, rows, map[]) && !SomeFoldThrows(funcs, rows)
  {
  }

  lemma StillThrows<K(!new)>(funcs: seq<Function>, rows: seq<Row<K>>, row: Row<K>)
    requires SomeFoldThrows(funcs, rows)
    ensures SomeFoldThrows(funcs, rows + [row])
  {
    hide Fold, GroupColumn, Update;
    var k, i :| 0 <= i < |funcs| && Fold(funcs[i], GroupColumn(rows, k, i)).Failure?;
    RowFolds(funcs[i], rows, row, k, i);
  }

  lemma NothingThrows<K(!new)>(funcs: seq<Function>, rows: seq<Row<K>>, t: map<K, seq<State>>)
    requires Grouped(funcs, rows, t)
    ensures !SomeFoldThrows(funcs, rows)
  {
    forall k, i | 0 <= i < |funcs|
      ensures Fold(funcs[i], GroupColumn(rows, k, i)).Success?
    {
      StatesSoFar(funcs, rows, t, k);
    }
  }
}
