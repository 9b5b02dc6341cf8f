/** Grouped aggregation: accumulators that are updated row by row, merged and
    finalized, and the hash table that keeps them by group. */
module Aggregation {
  import opened Config
  import opened CheckedArithmetic

  datatype Function = Count | CountStar | Sum | Min | Max | Avg

  datatype CmpBool = CmpFalse | CmpTrue | CmpNull

  /** `value` is the sum so far, or the least or greatest value. */
  datatype State = State(value: SqlInt, count: nat, isNull: CmpBool)

  function Fresh(): State { State(Null, 0, CmpTrue) }

  // ---------------------------------------------------------------- the functions

  function AddValues(a: SqlInt, b: SqlInt): Result<SqlInt, Error> {
    if a.Null? || b.Null? then Success(Null) else Add(a.width, a.value, b.width, b.value)
  }

  function Lesser(a: SqlInt, b: SqlInt): SqlInt {
    if a.Null? || b.Null? then Null else if a.value < b.value then a else b
  }

  function Greater(a: SqlInt, b: SqlInt): SqlInt {
    if a.Null? || b.Null? then Null else if a.value > b.value then a else b
  }

  /** How SUM, MIN, MAX and AVG combine two values. */
  function Combine(fn: Function, a: SqlInt, b: SqlInt): Result<SqlInt, Error> {
    match fn
    case Min => Success(Lesser(a, b))
    case Max => Success(Greater(a, b))
    case _ => AddValues(a, b)
  }

  function Update(fn: Function, st: State, arg: SqlInt): Result<State, Error> {
    if fn == CountStar then Success(st.(count := st.count + 1, isNull := CmpFalse))
    else if arg.Null? then Success(st)
    else if fn == Count then Success(st.(count := st.count + 1, isNull := CmpFalse))
    else
      var count := if fn == Avg then st.count + 1 else st.count;
      if st.isNull == CmpTrue then Success(State(arg, count, CmpFalse))
      else
        match Combine(fn, st.value, arg)
        case Success(v) => Success(st.(value := v, count := count))
        case Failure(e) => Failure(e)
  }

  /** The counting functions look for `CmpNull`, which no accumulator ever has;
      the others for `CmpTrue`. */
  function Merge(fn: Function, d: State, s: State): Result<State, Error> {
    if fn == Count || fn == CountStar then
      if s.isNull == CmpNull then Success(d)
      else if d.isNull == CmpNull then Success(State(s.value, s.count, CmpFalse))
      else Success(d.(count := d.count + s.count))
    else if s.isNull == CmpTrue then Success(d)
    else
      var count := if fn == Avg then d.count + s.count else d.count;
      if d.isNull == CmpTrue then Success(State(s.value, count, CmpFalse))
      else
        match Combine(fn, d.value, s.value)
        case Success(v) => Success(d.(value := v, count := count))
        case Failure(e) => Failure(e)
  }

  /** A final value; an average is left as sum and count. */
  datatype Final = Value(v: SqlInt) | Quotient(sum: SqlInt, count: nat) | UnknownType

  /** Without any value, SUM, MIN, MAX and AVG ask for a NULL of no type, which
      throws. COUNT is cut to 32 bits. */
  function Finalize(fn: Function, st: State): Final {
    match fn
    case Count => Value(Stored(W32, Wrap(W32, st.count)))
    case CountStar => Value(Stored(W64, Wrap(W64, st.count)))
    case Avg => if st.isNull == CmpTrue || st.count == 0 then UnknownType else Quotient(st.value, st.count)
    case _ => if st.isNull == CmpTrue then UnknownType else Value(st.value)
  }

  /** An accumulator that has seen these arguments in order. */
  function Fold(fn: Function, args: seq<SqlInt>): Result<State, Error> {
    if args == [] then Success(Fresh())
    else
      match Fold(fn, args[..|args| - 1])
      case Failure(e) => Failure(e)
      case Success(st) => Update(fn, st, args[|args| - 1])
  }

  // ---------------------------------------------------------------- what they compute

  /** Arguments from a column of width `w`. */
  ghost predicate Column(w: Width, args: seq<SqlInt>) {
    forall i :: 0 <= i < |args| && args[i].Int? ==> args[i].width == w && Operand(w, args[i].value)
  }

  /** The values that are not NULL. */
  function Values(args: seq<SqlInt>): seq<int> {
    if args == [] then []
    else
      var rest := Values(args[..|args| - 1]);
      if args[|args| - 1].Null? then rest else rest + [args[|args| - 1].value]
  }

  function Total(vs: seq<int>): int {
    if vs == [] then 0 else Total(vs[..|vs| - 1]) + vs[|vs| - 1]
  }

  /** `m` is a value of `vs`, and none is smaller (or none is greater). */
  ghost predicate IsExtreme(least: bool, vs: seq<int>, m: int) {
    m in vs && forall i :: 0 <= i < |vs| ==> if least then m <= vs[i] else vs[i] <= m
  }

  /** No partial sum leaves the width or reads as NULL. */
  ghost predicate SumsFit(w: Width, args: seq<SqlInt>) {
    forall n :: 0 <= n <= |args| ==> Operand(w, Total(Values(args[..n])))
  }

  /** What an accumulator holds after these arguments. */
  ghost predicate Holds(fn: Function, w: Width, args: seq<SqlInt>, st: State) {
    var vs := Values(args);
    match fn
    case CountStar => st.count == |args| && st.isNull != CmpNull
    case Count => st.count == |vs| && st.isNull != CmpNull
    case _ =>
      && st.isNull == (if vs == [] then CmpTrue else CmpFalse)
      && (fn == Avg ==> st.count == |vs|)
      && (vs != [] ==> st.value.Int? && st.value.width == w && Exact(fn, vs, st.value.value))
  }

  ghost predicate Exact(fn: Function, vs: seq<int>, v: int) {
    match fn
    case Min => IsExtreme(true, vs, v)
    case Max => IsExtreme(false, vs, v)
    case _ => v == Total(vs)
  }

  ghost predicate Summing(fn: Function) { fn == Sum || fn == Avg }

  lemma SumsFitPrefix(w: Width, args: seq<SqlInt>, n: nat)
    requires SumsFit(w, args) && n <= |args|
    ensures SumsFit(w, args[..n]) && Operand(w, Total(Values(args)))
  {
    assert args[..|args|] == args;
    forall k | 0 <= k <= n
      ensures Operand(w, Total(Values(args[..n][..k])))
    {
      assert args[..n][..k] == args[..k];
    }
  }

  /** The accumulators compute the number of rows, the number, total, least and
      greatest of the values that are not NULL. */
  lemma {:induction false} FoldHolds(fn: Function, w: Width, args: seq<SqlInt>)
    requires Column(w, args) && (Summing(fn) ==> SumsFit(w, args))
    ensures Fold(fn, args).Success? && Holds(fn, w, args, Fold(fn, args).value)
  {
    if args != [] {
      var init, arg := args[..|args| - 1], args[|args| - 1];
      if Summing(fn) {
        SumsFitPrefix(w, args, |init|);
        SumsFitPrefix(w, init, |init|);
      }
      FoldHolds(fn, w, init);
      UpdateHolds(fn, w, init, arg, Fold(fn, init).value);
      assert init + [arg] == args;
    }
  }

  lemma {:induction false} ValuesConcat(xs: seq<SqlInt>, ys: seq<SqlInt>)
    ensures Values(xs + ys) == Values(xs) + Values(ys)
  {
    if ys == [] {
      assert xs + ys == xs;
    } else {
      ValuesConcat(xs, ys[..|ys| - 1]);
      assert (xs + ys)[..|xs + ys| - 1] == xs + ys[..|ys| - 1];
    }
  }

  lemma {:induction false} TotalConcat(a: seq<int>, b: seq<int>)
    ensures Total(a + b) == Total(a) + Total(b)
  {
    if b == [] {
      assert a + b == a;
    } else {
      TotalConcat(a, b[..|b| - 1]);
      assert (a + b)[..|a + b| - 1] == a + b[..|b| - 1];
    }
  }

  /** Combining what is exact for two parts gives what is exact for the whole. */
  lemma CombineExact(fn: Function, w: Width, a: seq<int>, b: seq<int>, va: int, vb: int)
    requires Exact(fn, a, va) && Exact(fn, b, vb)
    requires Summing(fn) ==> Operand(w, va) && Operand(w, vb) && Operand(w, va + vb)
    requires fn != Count && fn != CountStar
    ensures var r := Combine(fn, Int(w, va), Int(w, vb));
            r.Success? && r.value.Int? && r.value.width == w && Exact(fn, a + b, r.value.value)
  {
    hide Add, Operand;
    if Summing(fn) {
      AddOperands(w, va, vb);
      TotalConcat(a, b);
    }
  }

  lemma AddOperands(w: Width, x: int, y: int)
    requires Operand(w, x) && Operand(w, y) && Operand(w, x + y)
    ensures Add(w, x, w, y) == Success(Int(w, x + y))
  {
    hide Add;
    AddIsExact(w, x, w, y);
  }

  lemma ValuesStep(args: seq<SqlInt>, arg: SqlInt)
    ensures Values(args + [arg]) == if arg.Null? then Values(args) else Values(args) + [arg.value]
  {
    var all := args + [arg];
    assert all[..|all| - 1] == args && all[|args|] == arg;
  }

  lemma OneIsExact(fn: Function, v: int)
    ensures Exact(fn, [v], v)
  {
    assert Total([]) == 0 && [v][..0] == [];
  }

  lemma UpdateHolds(fn: Function, w: Width, args: seq<SqlInt>, arg: SqlInt, st: State)
    requires Column(w, args + [arg]) && Holds(fn, w, args, st)
    requires Summing(fn) ==> Operand(w, Total(Values(args))) && Operand(w, Total(Values(args + [arg])))
    ensures Update(fn, st, arg).Success? && Holds(fn, w, args + [arg], Update(fn, st, arg).value)
  {
    hide Values, Total, Exact, Operand, Combine;
    ValuesStep(args, arg);
    assert (args + [arg])[|args|] == arg;
    var vs := Values(args);
    if arg.Int? && fn != Count && fn != CountStar {
      OneIsExact(fn, arg.value);
      OperandOf(w, args + [arg], |args|);
      if vs == [] {
        assert vs + [arg.value] == [arg.value];
      } else {
        ExactTotal(fn, vs, st.value.value);
        TotalOne(vs, arg.value);
        CombineExact(fn, w, vs, [arg.value], st.value.value, arg.value);
      }
    }
  }

  lemma OperandOf(w: Width, args: seq<SqlInt>, i: nat)
    requires Column(w, args) && i < |args| && args[i].Int?
    ensures args[i].width == w && Operand(w, args[i].value)
  {
  }

  lemma ExactTotal(fn: Function, vs: seq<int>, v: int)
    requires Summing(fn) ==> Exact(fn, vs, v)
    ensures Summing(fn) ==> v == Total(vs)
  {
  }

  lemma TotalOne(vs: seq<int>, v: int)
    ensures Total(vs + [v]) == Total(vs) + v
  {
    assert (vs + [v])[..|vs|] == vs;
  }

  /** Merging the accumulators of two parts gives one that holds the whole. */
  lemma MergeHolds(fn: Function, w: Width, xs: seq<SqlInt>, ys: seq<SqlInt>, d: State, s: State)
    requires Holds(fn, w, xs, d) && Holds(fn, w, ys, s)
    requires Summing(fn) ==>
               Operand(w, Total(Values(xs))) && Operand(w, Total(Values(ys))) && Operand(w, Total(Values(xs + ys)))
    ensures Merge(fn, d, s).Success? && Holds(fn, w, xs + ys, Merge(fn, d, s).value)
  {
    hide Values, Total, Exact, Operand, Combine;
    ValuesConcat(xs, ys);
    var a, b := Values(xs), Values(ys);
    TotalConcat(a, b);
    assert a == [] ==> a + b == b;
    assert b == [] ==> a + b == a;
    if fn != Count && fn != CountStar && a != [] && b != [] {
      ExactTotal(fn, a, d.value.value);
      ExactTotal(fn, b, s.value.value);
      CombineExact(fn, w, a, b, d.value.value, s.value.value);
    }
  }

  /** An accumulator's contents decide the final value. */
  lemma FinalDecided(fn: Function, w: Width, args: seq<SqlInt>, s: State, t: State)
    requires Holds(fn, w, args, s) && Holds(fn, w, args, t)
    ensures Finalize(fn, s) == Finalize(fn, t)
  {
  }

  /** The final value of an accumulator that holds a column, for every function. */
  lemma FinalOfHolds(fn: Function, w: Width, args: seq<SqlInt>, st: State)
    requires Holds(fn, w, args, st)
    ensures var vs := Values(args);
            match fn
            case Count => Finalize(fn, st) == Value(Int(W32, |vs|)) <==> |vs| < Half(W32)
            case CountStar => Finalize(fn, st) == Value(Int(W64, |args|)) <==> |args| < Half(W64)
            case Avg => Finalize(fn, st) == if vs == [] then UnknownType else Quotient(Int(w, Total(vs)), |vs|)
            case Sum => Finalize(fn, st) == if vs == [] then UnknownType else Value(Int(w, Total(vs)))
            case _ =>
              if vs == [] then Finalize(fn, st) == UnknownType
              else exists m :: Finalize(fn, st) == Value(Int(w, m)) && IsExtreme(fn == Min, vs, m)
  {
    hide Values, Total, Wrap, IsExtreme;
    if (fn == Min || fn == Max) && Values(args) != [] {
      var m := st.value.value;
      assert Finalize(fn, st) == Value(Int(w, m)) && IsExtreme(fn == Min, Values(args), m);
    }
  }

  /** What each function yields over a column of one width: COUNT the number of
      values, exactly below 2^31; COUNT(*) the number of rows, exactly below 2^63; AVG
      the true total over the number of values; SUM the true total; MIN and MAX the
      least and the greatest value; all but the counts throw without any value. For
      sums no partial sum may leave the width or read as NULL. */
  lemma FinalValue(fn: Function, w: Width, args: seq<SqlInt>)
    requires Column(w, args) && (Summing(fn) ==> SumsFit(w, args))
    ensures Fold(fn, args).Success?
    ensures var vs, final := Values(args), Finalize(fn, Fold(fn, args).value);
            match fn
            case Count => final == Value(Int(W32, |vs|)) <==> |vs| < 0x8000_0000
            case CountStar => final == Value(Int(W64, |args|)) <==> |args| < 0x8000_0000_0000_0000
            case Avg => final == if vs == [] then UnknownType else Quotient(Int(w, Total(vs)), |vs|)
            case Sum => final == if vs == [] then UnknownType else Value(Int(w, Total(vs)))
            case _ =>
              if vs == [] then final == UnknownType
              else exists m :: final == Value(Int(w, m)) && IsExtreme(fn == Min, vs, m)
  {
    hide Holds, Fold, Values, Total, Finalize, Column, IsExtreme;
    FoldHolds(fn, w, args);
    FinalOfHolds(fn, w, args, Fold(fn, args).value);
  }

  /** Aggregation is a homomorphism: merging the accumulators of the parts of a
      split input and finalizing gives what folding the whole input gives. For
      sums no partial sum may leave the width or read as NULL. */
  lemma MergeIsFold(fn: Function, w: Width, xs: seq<SqlInt>, ys: seq<SqlInt>)
    requires Column(w, xs) && Column(w, ys)
    requires Summing(fn) ==> SumsFit(w, xs + ys) && SumsFit(w, ys)
    ensures Fold(fn, xs).Success? && Fold(fn, ys).Success? && Fold(fn, xs + ys).Success?
    ensures var m := Merge(fn, Fold(fn, xs).value, Fold(fn, ys).value);
            m.Success? && Finalize(fn, m.value) == Finalize(fn, Fold(fn, xs + ys).value)
  {
    hide Holds, Fold, Merge, Finalize, Column;
    assert (xs + ys)[..|xs|] == xs;
    if Summing(fn) {
      SumsFitPrefix(w, xs + ys, |xs|);
      SumsFitPrefix(w, xs, |xs|);
      SumsFitPrefix(w, ys, |ys|);
    }
    ColumnConcat(w, xs, ys);
    FoldHolds(fn, w, xs);
    FoldHolds(fn, w, ys);
    FoldHolds(fn, w, xs + ys);
    MergeHolds(fn, w, xs, ys, Fold(fn, xs).value, Fold(fn, ys).value);
    FinalDecided(fn, w, xs + ys, Merge(fn, Fold(fn, xs).value, Fold(fn, ys).value).value, Fold(fn, xs + ys).value);
  }

  lemma ColumnConcat(w: Width, xs: seq<SqlInt>, ys: seq<SqlInt>)
    requires Column(w, xs) && Column(w, ys)
    ensures Column(w, xs + ys)
  {
  }

  // ---------------------------------------------------------------- when sums are exact

  /** Once a sum has thrown or become NULL it never recovers. */
  ghost predicate Spoilt(r: Result<State, Error>) {
    r.Failure? || (r.value.isNull == CmpFalse && r.value.value.Null?)
  }

  lemma EmptyFits(w: Width, args: seq<SqlInt>)
    ensures args == [] ==> SumsFit(w, args)
  {
  }

  /** If only the whole does not fit, its total is at fault. */
  lemma TotalAtFault(w: Width, init: seq<SqlInt>, arg: SqlInt)
    requires SumsFit(w, init) && !SumsFit(w, init + [arg])
    ensures !Operand(w, Total(Values(init + [arg])))
  {
    hide Values, Total, Operand;
    var args := init + [arg];
    assert args[..|args|] == args;
    assert forall n :: 0 <= n <= |init| ==> args[..n] == init[..n];
  }

  lemma TotalNone()
    ensures Total([]) == 0
  {
  }

  /** The update that spoils a sum. */
  lemma UpdateSpoils(w: Width, init: seq<SqlInt>, arg: SqlInt, st: State)
    requires Holds(Sum, w, init, st) && Operand(w, Total(Values(init)))
    requires arg.Int? ==> arg.width == w && Operand(w, arg.value)
    requires !Operand(w, Total(Values(init + [arg])))
    ensures Spoilt(Update(Sum, st, arg))
  {
    hide Values, Total, Add, Wrap;
    ValuesStep(init, arg);
    if arg.Int? {
      TotalOne(Values(init), arg.value);
      TotalNone();
      AddIsExact(w, Total(Values(init)), w, arg.value);
    }
  }

  lemma {:induction false} SpoiltUnlessFit(w: Width, args: seq<SqlInt>)
    requires Column(w, args) && !SumsFit(w, args)
    ensures Spoilt(Fold(Sum, args))
  {
    hide Holds, SumsFit, Fold, Operand, Add, Values, Total;
    EmptyFits(w, args);
    var init, arg := args[..|args| - 1], args[|args| - 1];
    assert args == init + [arg];
    FoldStep(Sum, init, arg);
    if SumsFit(w, init) {
      TotalAtFault(w, init, arg);
      FoldHolds(Sum, w, init);
      SumsFitPrefix(w, init, |init|);
      UpdateSpoils(w, init, arg, Fold(Sum, init).value);
    } else {
      SpoiltUnlessFit(w, init);
    }
  }

  /** SUM yields the true total of a column with some value exactly if no partial
      sum leaves the width or reads as NULL. */
  lemma SumExactIff(w: Width, args: seq<SqlInt>)
    requires Column(w, args) && Values(args) != []
    ensures SumsFit(w, args) <==>
            && Fold(Sum, args).Success?
            && Finalize(Sum, Fold(Sum, args).value) == Value(Int(w, Total(Values(args))))
  {
    hide Fold;
    if SumsFit(w, args) {
      FoldHolds(Sum, w, args);
    } else {
      SpoiltUnlessFit(w, args);
    }
  }

  /** The sum came out, and it is the true total of `args`. */
  ghost predicate YieldsTotal(r: Result<State, Error>, w: Width, args: seq<SqlInt>) {
    r.Success? && Finalize(Sum, r.value) == Value(Int(w, Total(Values(args))))
  }

  /** Merging what two folds gave, if neither threw. */
  function MergeOf(fn: Function, d: Result<State, Error>, s: Result<State, Error>): Result<State, Error> {
    if d.Failure? then d else if s.Failure? then s else Merge(fn, d.value, s.value)
  }

  /** A spoilt part spoils the merged sum. */
  lemma MergeSpoilt(w: Width, d: Result<State, Error>, s: Result<State, Error>, args: seq<SqlInt>)
    requires Spoilt(s)
    ensures !YieldsTotal(MergeOf(Sum, d, s), w, args)
  {
  }

  /** For a column with some value, folding the whole and merging the parts both
      give the true total exactly if no partial sum of the whole or of the second
      part leaves the width or reads as NULL. */
  lemma MergedSumExactIff(w: Width, xs: seq<SqlInt>, ys: seq<SqlInt>)
    requires Column(w, xs) && Column(w, ys) && Values(xs + ys) != []
    ensures SumsFit(w, xs + ys) && SumsFit(w, ys) <==>
            YieldsTotal(Fold(Sum, xs + ys), w, xs + ys) &&
            YieldsTotal(MergeOf(Sum, Fold(Sum, xs), Fold(Sum, ys)), w, xs + ys)
  {
    hide Fold, Merge, Finalize, SumsFit, Column, Values, Total, Spoilt;
    ColumnConcat(w, xs, ys);
    SumExactIff(w, xs + ys);
    if SumsFit(w, xs + ys) && SumsFit(w, ys) {
      MergeIsFold(Sum, w, xs, ys);
    } else if !SumsFit(w, ys) {
      SpoiltUnlessFit(w, ys);
      MergeSpoilt(w, Fold(Sum, xs), Fold(Sum, ys), xs + ys);
    }
  }

  /** COUNT yields the number of values exactly if it is below 2^31. */
  lemma CountExactIff(w: Width, args: seq<SqlInt>)
    requires Column(w, args)
    ensures Fold(Count, args).Success?
    ensures Finalize(Count, Fold(Count, args).value) == Value(Int(W32, |Values(args)|)) <==> |Values(args)| < Half(W32)
  {
    hide Fold, Values, Wrap;
    FoldHolds(Count, w, args);
  }

  /** The order of rows decides whether a sum throws, so the condition on partial
      sums cannot be dropped: merged from two parts this sum is right, but folded
      over the whole it throws. */
  lemma MergeCanSucceedAlone()
    ensures var m := Int(W8, 127);
            var xs, ys := [m], [Int(W8, 1), Int(W8, -1)];
            && Fold(Sum, xs + ys).Failure?
            && Fold(Sum, xs).Success? && Fold(Sum, ys).Success?
            && Merge(Sum, Fold(Sum, xs).value, Fold(Sum, ys).value) == Success(State(m, 0, CmpFalse))
  {
    hide Add, Fold, Wrap;
    var m, one, minus := Int(W8, 127), Int(W8, 1), Int(W8, -1);
    AddIsExact(W8, 127, W8, 1);
    AddIsExact(W8, 1, W8, -1);
    AddIsExact(W8, 127, W8, 0);
    assert Fold(Sum, []) == Success(Fresh()) by { FoldNone(Sum); }
    assert [m] == [] + [m] && [one] == [] + [one] && [one, minus] == [one] + [minus] && [m, one] == [m] + [one];
    FoldStep(Sum, [], m);
    FoldStep(Sum, [], one);
    FoldStep(Sum, [one], minus);
    FoldStep(Sum, [m], one);
    FoldStep(Sum, [m, one], minus);
    assert [m] + [one, minus] == [m, one] + [minus];
  }

  lemma FoldNone(fn: Function)
    ensures Fold(fn, []) == Success(Fresh())
  {
  }

  lemma FoldStep(fn: Function, args: seq<SqlInt>, arg: SqlInt)
    ensures Fold(fn, args + [arg]) ==
            if Fold(fn, args).Failure? then Fold(fn, args) else Update(fn, Fold(fn, args).value, arg)
  {
    assert (args + [arg])[..|args|] == args;
  }
}
