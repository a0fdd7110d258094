/** The Fibonacci-triples test AIR (tests/fib_triples_air/air.rs): three
    columns `left`, `middle`, `right` and three public values `a`, `b`, `x`.
    The first row starts the sequence at `a, b`, every transition shifts the
    triple one Fibonacci step, and the last row's `right` is `x`. */
module FibTriplesAir {
  import opened Algebra
  import opened Rap
  import FibOracles

  const Width: nat := 3
  const NumPublicValues: nat := 3

  const LeftCol: nat := 0
  const MiddleCol: nat := 1
  const RightCol: nat := 2

  /** A column of the current row and of the next row. */
  function Local(col: nat): Term { Var(MainCell(0, col)) }
  function Next(col: nat): Term { Var(MainCell(1, col)) }

  /** The public values `a`, `b` and `x`. */
  function Pi(index: nat): Term { Var(PublicValue(index)) }

  /** The constraints `eval` records on a builder behind `cs`, in order:
      three on the first row, three on transitions, one on the last row. */
  function FibConstraints(cs: seq<Term>): (r: seq<Term>)
    ensures |r| == 7
  {
    [ Guard(cs + [FirstRow], Sub(Local(LeftCol), Pi(0))),
      Guard(cs + [FirstRow], Sub(Local(MiddleCol), Pi(1))),
      Guard(cs + [FirstRow], Sub(Local(RightCol), Add(Local(LeftCol), Local(MiddleCol)))),
      Guard(cs + [TransitionWindow(2)], Sub(Local(MiddleCol), Next(LeftCol))),
      Guard(cs + [TransitionWindow(2)], Sub(Local(RightCol), Next(MiddleCol))),
      Guard(cs + [TransitionWindow(2)], Sub(Add(Local(MiddleCol), Local(RightCol)), Next(RightCol))),
      Guard(cs + [LastRow], Sub(Local(RightCol), Pi(2))) ]
  }

  /** `FibonacciAir::eval`. */
  method Eval(builder: Builder)
    modifies builder.recorder
    ensures builder.recorder.constraints == old(builder.recorder.constraints) + FibConstraints(builder.conditions)
    ensures builder.recorder.extConstraints == old(builder.recorder.extConstraints)
  {
    var whenFirstRow := builder.WhenFirstRow();
    whenFirstRow.AssertEq(Local(LeftCol), Pi(0));
    whenFirstRow.AssertEq(Local(MiddleCol), Pi(1));
    whenFirstRow.AssertEq(Local(RightCol), Add(Local(LeftCol), Local(MiddleCol)));

    var whenTransition := builder.WhenTransition();
    whenTransition.AssertEq(Local(MiddleCol), Next(LeftCol));
    whenTransition.AssertEq(Local(RightCol), Next(MiddleCol));
    whenTransition.AssertEq(Add(Local(MiddleCol), Local(RightCol)), Next(RightCol));

    var whenLastRow := builder.WhenLastRow();
    whenLastRow.AssertEq(Local(RightCol), Pi(2));
  }

  /** A selector value of a row is 0 or 1. */
  predicate IsSelector(v: Val) { v == 0 || v == 1 }

  /** The relations the AIR states, read off a row. */
  predicate FirstRowHolds(row: Row) {
    row.isFirstRow == 1 ==>
      && row.vars(MainCell(0, LeftCol)) == row.vars(PublicValue(0))
      && row.vars(MainCell(0, MiddleCol)) == row.vars(PublicValue(1))
      && row.vars(MainCell(0, RightCol)) == FAdd(row.vars(MainCell(0, LeftCol)), row.vars(MainCell(0, MiddleCol)))
  }

  predicate TransitionHolds(row: Row) {
    row.transitionWindow(2) == 1 ==>
      && row.vars(MainCell(1, LeftCol)) == row.vars(MainCell(0, MiddleCol))
      && row.vars(MainCell(1, MiddleCol)) == row.vars(MainCell(0, RightCol))
      && row.vars(MainCell(1, RightCol)) == FAdd(row.vars(MainCell(0, MiddleCol)), row.vars(MainCell(0, RightCol)))
  }

  predicate LastRowHolds(row: Row) {
    row.isLastRow == 1 ==> row.vars(MainCell(0, RightCol)) == row.vars(PublicValue(2))
  }

  /** A filtered difference vanishes exactly when its selector is off or the
      two sides agree. */
  lemma GuardedEq(row: Row, sel: Term, x: Term, y: Term)
    requires IsSelector(Rap.Eval(row, sel))
    ensures Rap.Eval(row, Guard([] + [sel], Sub(x, y))) == 0 <==> (Rap.Eval(row, sel) == 1 ==> Rap.Eval(row, x) == Rap.Eval(row, y))
  {
    assert [] + [sel] == [sel];
    GuardMeaning(row, [sel], Sub(x, y));
    SubZeroIffEqual(Rap.Eval(row, x), Rap.Eval(row, y));
    if Rap.Eval(row, sel) == 0 {
      assert SomeOff(row, [sel]) by {
        assert Rap.Eval(row, [sel][0]) == 0;
      }
    } else {
      assert AllOn(row, [sel]);
    }
  }

  /** The values of the columns a row reads. */
  lemma ColumnValues(row: Row)
    ensures Rap.Eval(row, Local(LeftCol)) == row.vars(MainCell(0, LeftCol))
    ensures Rap.Eval(row, Local(MiddleCol)) == row.vars(MainCell(0, MiddleCol))
    ensures Rap.Eval(row, Local(RightCol)) == row.vars(MainCell(0, RightCol))
    ensures Rap.Eval(row, Next(LeftCol)) == row.vars(MainCell(1, LeftCol))
    ensures Rap.Eval(row, Next(MiddleCol)) == row.vars(MainCell(1, MiddleCol))
    ensures Rap.Eval(row, Next(RightCol)) == row.vars(MainCell(1, RightCol))
    ensures forall k :: Rap.Eval(row, Pi(k)) == row.vars(PublicValue(k))
  {
  }

  /** The three first-row constraints vanish exactly when the first-row
      relations hold. */
  lemma FirstRowMeaning(row: Row)
    requires IsSelector(row.isFirstRow)
    ensures var cs := FibConstraints([]);
      (Rap.Eval(row, cs[0]) == 0 && Rap.Eval(row, cs[1]) == 0 && Rap.Eval(row, cs[2]) == 0) <==> FirstRowHolds(row)
  {
    ColumnValues(row);
    GuardedEq(row, FirstRow, Local(LeftCol), Pi(0));
    GuardedEq(row, FirstRow, Local(MiddleCol), Pi(1));
    GuardedEq(row, FirstRow, Local(RightCol), Add(Local(LeftCol), Local(MiddleCol)));
  }

  /** The three transition constraints vanish exactly when the transition
      relations hold. */
  lemma TransitionMeaning(row: Row)
    requires IsSelector(row.transitionWindow(2))
    ensures var cs := FibConstraints([]);
      (Rap.Eval(row, cs[3]) == 0 && Rap.Eval(row, cs[4]) == 0 && Rap.Eval(row, cs[5]) == 0) <==> TransitionHolds(row)
  {
    ColumnValues(row);
    GuardedEq(row, TransitionWindow(2), Local(MiddleCol), Next(LeftCol));
    GuardedEq(row, TransitionWindow(2), Local(RightCol), Next(MiddleCol));
    GuardedEq(row, TransitionWindow(2), Add(Local(MiddleCol), Local(RightCol)), Next(RightCol));
  }

  /** On a row whose selectors are 0 or 1, the constraints of a top-level
      builder all vanish exactly when the row satisfies the first-row, the
      transition and the last-row relations. */
  lemma FibConstraintsMeaning(row: Row)
    requires IsSelector(row.isFirstRow) && IsSelector(row.isLastRow) && IsSelector(row.transitionWindow(2))
    ensures (forall k :: 0 <= k < 7 ==> Rap.Eval(row, FibConstraints([])[k]) == 0) <==>
      FirstRowHolds(row) && TransitionHolds(row) && LastRowHolds(row)
  {
    var cs := FibConstraints([]);
    FirstRowMeaning(row);
    TransitionMeaning(row);
    ColumnValues(row);
    GuardedEq(row, LastRow, Local(RightCol), Pi(2));
    assert (forall k :: 0 <= k < 7 ==> Rap.Eval(row, cs[k]) == 0) <==>
      (&& Rap.Eval(row, cs[0]) == 0 && Rap.Eval(row, cs[1]) == 0 && Rap.Eval(row, cs[2]) == 0
       && Rap.Eval(row, cs[3]) == 0 && Rap.Eval(row, cs[4]) == 0 && Rap.Eval(row, cs[5]) == 0
       && Rap.Eval(row, cs[6]) == 0);
  }

  /** Row `i` of the trace the test proves for height `n`: `(F_i, F_(i+1),
      F_(i+2))` in the field, the next row wrapping around, and the public
      values `a = 0`, `b = 1`, `x = F_(n+1)`. */
  function FibTraceValue(n: nat, i: nat, c: Cell): Val
    requires n >= 1
  {
    match c
    case MainCell(offset, col) => (FibOracles.Fib((i + offset) % n + col) % P) as Val
    case PublicValue(index) =>
      if index == 0 then 0 else if index == 1 then 1 else if index == 2 then (FibOracles.Fib(n + 1) % P) as Val else 0
    case _ => 0
  }

  function FibTraceRow(n: nat, i: nat): Row
    requires n >= 1
  {
    Row(c => FibTraceValue(n, i, c),
        if i == 0 then 1 else 0,
        if i == n - 1 then 1 else 0,
        size => if i != n - 1 then 1 else 0)
  }

  /** The cells of the trace row, as Fibonacci numbers. */
  lemma FibTraceCells(n: nat, i: nat)
    requires n >= 1 && i < n
    ensures forall col :: FibTraceRow(n, i).vars(MainCell(0, col)) == FibOracles.Fib(i + col) % P
    ensures FibTraceRow(n, i).vars(PublicValue(0)) == 0 && FibTraceRow(n, i).vars(PublicValue(1)) == 1
    ensures FibTraceRow(n, i).vars(PublicValue(2)) == FibOracles.Fib(n + 1) % P
  {
    assert i % n == i;
  }

  /** Below the last row, the next row is row `i + 1`. */
  lemma FibTraceNextCells(n: nat, i: nat)
    requires n >= 1 && i + 1 < n
    ensures forall col :: FibTraceRow(n, i).vars(MainCell(1, col)) == FibOracles.Fib(i + 1 + col) % P
  {
    assert (i + 1) % n == i + 1;
  }

  /** The Fibonacci trace with `a = 0`, `b = 1` and `x = F_(n+1)`, which is
      `get_fib_number(n + 1)`, satisfies every constraint on every row. */
  lemma FibTraceSatisfies(n: nat, i: nat)
    requires n >= 1 && i < n
    ensures forall k :: 0 <= k < 7 ==> Rap.Eval(FibTraceRow(n, i), FibConstraints([])[k]) == 0
  {
    var row := FibTraceRow(n, i);
    FibTraceCells(n, i);
    FibConstraintsMeaning(row);
    assert FirstRowHolds(row) by {
      if i == 0 {
        FAddReduces(FibOracles.Fib(0), FibOracles.Fib(1));
        assert FibOracles.Fib(2) == 1;
      }
    }
    assert TransitionHolds(row) by {
      if i + 1 < n {
        FibTraceNextCells(n, i);
        FAddReduces(FibOracles.Fib(i + 1), FibOracles.Fib(i + 2));
        assert FibOracles.Fib(i + 3) == FibOracles.Fib(i + 1) + FibOracles.Fib(i + 2);
      }
    }
    assert LastRowHolds(row) by {
      if i == n - 1 {
        assert i + 2 == n + 1;
      }
    }
  }
}
