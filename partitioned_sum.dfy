/** The partitioned-sum test AIR (tests/partitioned_sum_air/air.rs): a
    common main column `x` and a cached main partition `y_0 … y_(w-1)`, with
    the single constraint `x == y_0 + … + y_(w-1)`. */
module PartitionedSumAir {
  import opened Wrappers
  import opened Algebra
  import opened Rap

  /** `SumAir(w)`: `w` is the width of the cached `y` partition. */
  datatype SumAir = SumAir(w: nat)

  function CachedMainWidths(air: SumAir): seq<nat> { [air.w] }
  function CommonMainWidth(air: SumAir): nat { 1 }
  function Width(air: SumAir): nat { air.w + 1 }

  /** The partitions cover the whole width: the common main column and the
      cached widths add up to `width()`. */
  lemma {:induction false} WidthsAgree(air: SumAir)
    ensures CommonMainWidth(air) + SumOf(CachedMainWidths(air)) == Width(air)
  {
    assert SumOf(CachedMainWidths(air)) == SumOf([]) + air.w;
  }

  function SumOf(xs: seq<nat>): nat {
    if |xs| == 0 then 0 else SumOf(xs[..|xs| - 1]) + xs[|xs| - 1]
  }

  /** `columns()` is a `todo!`. */
  function Columns(air: SumAir): (r: Result<seq<string>>)
    ensures r.Panic?
  {
    Panic("not yet implemented")
  }

  /** `y_sum` after `k` columns: the left fold of `+` from zero. */
  function YSum(k: nat): Term {
    if k == 0 then Const(0) else Add(YSum(k - 1), Var(CachedMainCell(0, 0, k - 1)))
  }

  /** The integer sum of the first `k` values of the `y` row. */
  function RowSum(row: Row, k: nat): nat {
    if k == 0 then 0 else RowSum(row, k - 1) + row.vars(CachedMainCell(0, 0, k - 1))
  }

  /** `y_sum` evaluates to the sum of the `y` row in the field. */
  lemma {:induction false} YSumIsRowSum(row: Row, k: nat)
    ensures Rap.Eval(row, YSum(k)) == RowSum(row, k) % P
  {
    if k > 0 {
      YSumIsRowSum(row, k - 1);
      var y := row.vars(CachedMainCell(0, 0, k - 1));
      FAddReduces(RowSum(row, k - 1), y);
      assert y % P == y;
    }
  }

  /** The recorded constraint of a top-level builder vanishes on a row
      exactly when `x` is the field sum of the `y` row. */
  lemma SumConstraintMeaning(row: Row, w: nat)
    ensures Rap.Eval(row, Guard([], Sub(Var(CommonMainCell(0, 0)), YSum(w)))) == 0 <==>
      row.vars(CommonMainCell(0, 0)) == RowSum(row, w) % P
  {
    YSumIsRowSum(row, w);
    SubZeroIffEqual(row.vars(CommonMainCell(0, 0)), Rap.Eval(row, YSum(w)));
  }

  /** `SumAir::eval` on a builder whose cached main partitions have widths
      `cachedMainWidths` and whose common main has width `commonMainWidth`:
      anything but one cached partition fails the assertion, and a common
      main without columns has no `x`. */
  method Eval(builder: Builder, cachedMainWidths: seq<nat>, commonMainWidth: nat) returns (r: Result<()>)
    modifies builder.recorder
    ensures r.Ok? <==> |cachedMainWidths| == 1 && commonMainWidth > 0
    ensures r.Ok? ==>
      builder.recorder.constraints ==
        old(builder.recorder.constraints) + [Guard(builder.conditions, Sub(Var(CommonMainCell(0, 0)), YSum(cachedMainWidths[0])))]
    ensures r.Panic? ==> builder.recorder.constraints == old(builder.recorder.constraints)
    ensures builder.recorder.extConstraints == old(builder.recorder.extConstraints)
  {
    if |cachedMainWidths| != 1 {
      return Panic("assertion `left == right` failed: builder.cached_mains().len() == 1");
    }
    if commonMainWidth == 0 {
      return Panic("index out of bounds: common_main().row_slice(0)[0]");
    }
    var x := Var(CommonMainCell(0, 0));
    var ySum := Const(0);
    for k := 0 to cachedMainWidths[0]
      invariant ySum == YSum(k)
    {
      ySum := Add(ySum, Var(CachedMainCell(0, 0, k)));
    }
    builder.AssertEq(x, ySum);
    return Ok(());
  }
}
