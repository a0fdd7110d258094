/** The dummy interaction AIR of the SDK
    (dummy_airs/interaction/dummy_interaction_air.rs).

    Its trace has columns `| count | fields[..] |`; the AIR itself has no
    constraints and only declares one interaction per row, sending (or
    receiving, with the count negated) the fields with multiplicity `count`.
    With `partition` the count column is the common main trace and the
    fields a cached trace of their own.  Trace values are the `u32`s of the
    loaded data; their conversion to field elements is not modelled. */
module DummyAir {
  import opened Wrappers
  import opened Algebra
  import opened Rap
  import opened QuotientCommon

  /** `DummyInteractionCols::count_col` and `field_col`. */
  function CountCol(): nat { 0 }

  function FieldCol(fieldIdx: nat): (r: nat)
    ensures r != CountCol() && r - 1 == fieldIdx
  {
    fieldIdx + 1
  }

  datatype DummyInteractionAir = DummyInteractionAir(
    fieldWidth: nat,
    isSend: bool,
    busIndex: nat,
    countWeight: nat,
    partition: bool)

  /** `DummyInteractionAir::new`: no weight, one partition. */
  function New(fieldWidth: nat, isSend: bool, busIndex: nat): (r: DummyInteractionAir)
    ensures r.fieldWidth == fieldWidth && r.isSend == isSend && r.busIndex == busIndex
    ensures r.countWeight == 0 && !r.partition
  {
    DummyInteractionAir(fieldWidth, isSend, busIndex, 0, false)
  }

  /** `partition`: the same AIR with the fields in a cached trace. */
  function Partition(air: DummyInteractionAir): (r: DummyInteractionAir)
    ensures r.partition
    ensures r.fieldWidth == air.fieldWidth && r.isSend == air.isSend && r.busIndex == air.busIndex
    ensures r.countWeight == air.countWeight
  {
    air.(partition := true)
  }

  /** `width`: the count and the fields. */
  function Width(air: DummyInteractionAir): nat {
    1 + air.fieldWidth
  }

  /** `cached_main_widths`. */
  function CachedMainWidths(air: DummyInteractionAir): (r: seq<nat>)
    ensures air.partition ==> r == [air.fieldWidth]
    ensures !air.partition ==> r == []
  {
    if air.partition then [air.fieldWidth] else []
  }

  /** `common_main_width`. */
  function CommonMainWidth(air: DummyInteractionAir): (r: nat)
    ensures r >= 1
  {
    if air.partition then 1 else 1 + air.fieldWidth
  }

  function Sum(xs: seq<nat>): nat {
    if |xs| == 0 then 0 else xs[0] + Sum(xs[1..])
  }

  /** However the trace is split, the partitions add up to the full width. */
  lemma WidthsAddUp(air: DummyInteractionAir)
    ensures CommonMainWidth(air) + Sum(CachedMainWidths(air)) == Width(air)
  {
    if air.partition {
      assert Sum([air.fieldWidth]) == air.fieldWidth + Sum([]);
    }
  }

  /** What `eval` hands to `push_interaction`: the bus, the fields, the
      signed count and the weight. */
  datatype WeightedPush = WeightedPush(busIndex: nat, fields: seq<Term>, count: Term, countWeight: nat)

  /** The interactions pushed on a builder by AIRs that pass a count weight. */
  class WeightedInteractionRecorder {
    var pushes: seq<WeightedPush>

    constructor()
      ensures pushes == []
    {
      pushes := [];
    }

    method PushInteraction(busIndex: nat, fields: seq<Term>, count: Term, countWeight: nat)
      modifies this
      ensures pushes == old(pushes) + [WeightedPush(busIndex, fields, count, countWeight)]
    {
      pushes := pushes + [WeightedPush(busIndex, fields, count, countWeight)];
    }
  }

  /** `AB::Expr::NEG_ONE`. */
  const NegOne: Term := Const(P - 1)

  /** The cells `eval` reads the fields from: columns `1..` of the main
      trace, or the whole row of the (only) cached trace. */
  function FieldCells(air: DummyInteractionAir): (r: seq<Term>)
    ensures |r| == air.fieldWidth
    ensures forall i :: 0 <= i < |r| ==>
      r[i] == if air.partition then Var(CachedMainCell(0, 0, i)) else Var(MainCell(0, FieldCol(i)))
  {
    if air.partition then seq(air.fieldWidth, i requires 0 <= i => Var(CachedMainCell(0, 0, i)))
    else seq(air.fieldWidth, i requires 0 <= i => Var(MainCell(0, FieldCol(i))))
  }

  function CountCell(air: DummyInteractionAir): Term {
    if air.partition then Var(CommonMainCell(0, 0)) else Var(MainCell(0, CountCol()))
  }

  /** `eval`: one interaction on the AIR's bus, with the count for a send and
      `-count` for a receive. */
  method Eval(air: DummyInteractionAir, builder: WeightedInteractionRecorder)
    modifies builder
    ensures builder.pushes == old(builder.pushes) +
      [WeightedPush(air.busIndex, FieldCells(air),
                    if air.isSend then CountCell(air) else Mul(NegOne, CountCell(air)),
                    air.countWeight)]
  {
    var fields := FieldCells(air);
    var count := CountCell(air);
    if air.isSend {
      builder.PushInteraction(air.busIndex, fields, count, air.countWeight);
    } else {
      builder.PushInteraction(air.busIndex, fields, Mul(NegOne, count), air.countWeight);
    }
  }

  /** A row holds `count` and `fields` in the layout of `air`. */
  predicate HoldsRow(air: DummyInteractionAir, row: Row, count: Val, fields: seq<Val>) {
    && |fields| == air.fieldWidth
    && (if air.partition then row.vars(CommonMainCell(0, 0)) == count
        else row.vars(MainCell(0, CountCol())) == count)
    && forall i :: 0 <= i < |fields| ==>
         fields[i] == if air.partition then row.vars(CachedMainCell(0, 0, i)) else row.vars(MainCell(0, FieldCol(i)))
  }

  /** On a row holding `count` and `fields`, the pushed message is `fields`
      in both layouts, and the multiplicity is `count` for a sender and
      `-count` for a receiver. */
  lemma EvalMeaning(air: DummyInteractionAir, row: Row, count: Val, fields: seq<Val>)
    requires HoldsRow(air, row, count, fields)
    ensures forall i :: 0 <= i < |fields| ==> Rap.Eval(row, FieldCells(air)[i]) == fields[i]
    ensures Rap.Eval(row, CountCell(air)) == count
    ensures Rap.Eval(row, Mul(NegOne, CountCell(air))) == FNeg(count)
  {
    var c: int := Rap.Eval(row, CountCell(air));
    assert Rap.Eval(row, Mul(NegOne, CountCell(air))) == ((P - 1) * c) % P;
    if c > 0 {
      ModUnique((P - 1) * c, c - 1, P, P - c);
    }
  }

  /** `DummyInteractionData`: one count and one row of fields per row. */
  datatype DummyInteractionData = DummyInteractionData(count: seq<nat>, fields: seq<seq<nat>>)

  /** What `load_data` and the trace generators assert: as many field rows as
      counts (at least one, since the width is read from `fields[0]`), each
      of the AIR's field width. */
  predicate DataFits(fieldWidth: nat, data: DummyInteractionData) {
    && |data.fields| == |data.count|
    && |data.fields| > 0
    && |data.fields[0]| == fieldWidth
    && forall r :: 0 <= r < |data.fields| ==> |data.fields[r]| == fieldWidth
  }

  /** The checks `load_data` and the trace generators start with. */
  function CheckData(fieldWidth: nat, data: DummyInteractionData): (r: Result<()>)
    ensures r.Ok? <==> DataFits(fieldWidth, data)
  {
    if |data.fields| != |data.count| then Panic("assertion `left == right` failed: fields.len() == h")
    else if |data.fields| == 0 then Panic("index out of bounds: fields[0]")
    else if |data.fields[0]| != fieldWidth then Panic("assertion `left == right` failed: field_width == w")
    else if exists r :: 0 <= r < |data.fields| && |data.fields[r]| != |data.fields[0]| then
      Panic("assertion failed: fields.iter().all(|r| r.len() == w)")
    else Ok(())
  }

  /** `usize::next_power_of_two`: the least power of two that is at least `n`. */
  function NextPowerOfTwo(n: nat): (r: nat)
    ensures IsPow2(r) && r >= n && r >= 1
    ensures r == 1 || r / 2 < n
  {
    NextPowerOfTwoFrom(n, 1)
  }

  function NextPowerOfTwoFrom(n: nat, p: nat): (r: nat)
    requires IsPow2(p)
    requires p == 1 || p / 2 < n
    ensures IsPow2(r) && r >= n && r >= p
    ensures r == 1 || r / 2 < n
    decreases n - p
  {
    if p >= n then p
    else
      assert IsPow2(2 * p) by { assert (2 * p) / 2 == p; }
      NextPowerOfTwoFrom(n, 2 * p)
  }

  /** A row-major matrix of trace values. */
  datatype Matrix = Matrix(values: seq<nat>, width: nat)

  /** Row `k` of a matrix (`row_slice(k)`); empty past the last row. */
  function MatRow(m: Matrix, k: nat): (r: seq<nat>)
    ensures (k + 1) * m.width <= |m.values| ==> |r| == m.width
  {
    if (k + 1) * m.width <= |m.values| then m.values[k * m.width..(k + 1) * m.width] else []
  }

  function ZeroRow(n: nat): (r: seq<nat>)
    ensures |r| == n && forall i :: 0 <= i < n ==> r[i] == 0
  {
    seq(n, _ => 0)
  }

  /** The rows concatenated (`flatten`). */
  function Flatten(rows: seq<seq<nat>>): seq<nat> {
    if |rows| == 0 then [] else rows[0] + Flatten(rows[1..])
  }

  predicate Uniform(rows: seq<seq<nat>>, w: nat) {
    forall k :: 0 <= k < |rows| ==> |rows[k]| == w
  }

  lemma {:induction false} FlattenLength(rows: seq<seq<nat>>, w: nat)
    requires Uniform(rows, w)
    ensures |Flatten(rows)| == |rows| * w
  {
    if |rows| > 0 {
      FlattenLength(rows[1..], w);
      assert |rows| * w == w + (|rows| - 1) * w;
    }
  }

  /** Rows of equal width `w` are laid out back to back: row `k` of the
      flattened matrix is `rows[k]`. */
  lemma {:induction false} FlattenRow(rows: seq<seq<nat>>, w: nat, k: nat)
    requires Uniform(rows, w) && k < |rows|
    ensures |Flatten(rows)| == |rows| * w
    ensures MatRow(Matrix(Flatten(rows), w), k) == rows[k]
    decreases k
  {
    FlattenLength(rows, w);
    MulMonotone(k + 1, |rows|, w);
    var f := Flatten(rows);
    if k == 0 {
      assert f[0..w] == rows[0];
    } else {
      var tail := rows[1..];
      FlattenRow(tail, w, k - 1);
      FlattenLength(tail, w);
      MulMonotone(k, |tail|, w);
      MulPred(k, w);
      assert f[k * w..(k + 1) * w] == Flatten(tail)[(k - 1) * w..k * w];
    }
  }

  lemma MulPred(k: nat, w: nat)
    requires k > 0
    ensures k * w == w + (k - 1) * w
  {
  }

  /** The rows of the unpartitioned trace: the count followed by the fields. */
  function TraceRows(data: DummyInteractionData): (r: seq<seq<nat>>)
    requires |data.fields| == |data.count|
    ensures |r| == |data.count|
    ensures forall i :: 0 <= i < |r| ==> r[i] == [data.count[i]] + data.fields[i]
  {
    seq(|data.count|, i requires 0 <= i < |data.count| => [data.count[i]] + data.fields[i])
  }

  /** `generate_traces_without_partition`: the rows `[count, fields..]` one
      after the other, then zeros, `(w + 1) * h.next_power_of_two()` values
      in all. */
  function UnpartitionedTrace(air: DummyInteractionAir, data: DummyInteractionData): (r: Result<Matrix>)
    ensures r.Ok? <==> DataFits(air.fieldWidth, data)
    ensures r.Ok? ==> r.value.width == air.fieldWidth + 1
    ensures r.Ok? ==> |r.value.values| == NextPowerOfTwo(|data.count|) * (air.fieldWidth + 1)
  {
    var _ :- CheckData(air.fieldWidth, data);
    var w := air.fieldWidth + 1;
    var h := |data.count|;
    var np := NextPowerOfTwo(h);
    var rows := TraceRows(data);
    FlattenLength(rows, w);
    MulMonotone(h, np, w);
    assert np * w - h * w == (np - h) * w;
    Ok(Matrix(Flatten(rows) + ZeroRow((np - h) * w), w))
  }

  /** Row `k < h` of the unpartitioned trace is `[count[k]] ++ fields[k]`,
      and the rows after it, up to the next power of two, are zero. */
  lemma UnpartitionedLayout(air: DummyInteractionAir, data: DummyInteractionData, k: nat)
    requires DataFits(air.fieldWidth, data)
    requires k < NextPowerOfTwo(|data.count|)
    ensures MatRow(UnpartitionedTrace(air, data).value, k) ==
      if k < |data.count| then [data.count[k]] + data.fields[k] else ZeroRow(air.fieldWidth + 1)
  {
    var w := air.fieldWidth + 1;
    var h := |data.count|;
    var np := NextPowerOfTwo(h);
    var rows := TraceRows(data);
    var f := Flatten(rows);
    var n := UnpartitionedShape(air, data);
    FlattenLength(rows, w);
    MulMonotone(k + 1, np, w);
    if k < h {
      FlattenRow(rows, w, k);
      MulMonotone(k + 1, h, w);
      RowInPrefix(f, ZeroRow(n), w, k);
    } else {
      MulMonotone(h, k, w);
      RowInZeros(f, n, w, k);
    }
  }

  /** The unpartitioned trace is the flattened rows followed by zeros. */
  lemma UnpartitionedShape(air: DummyInteractionAir, data: DummyInteractionData) returns (n: nat)
    requires DataFits(air.fieldWidth, data)
    ensures UnpartitionedTrace(air, data).value == Matrix(Flatten(TraceRows(data)) + ZeroRow(n), air.fieldWidth + 1)
  {
    var h := |data.count|;
    n := (NextPowerOfTwo(h) - h) * (air.fieldWidth + 1);
  }

  /** A row inside `f` is unchanged by appending to `f`. */
  lemma RowInPrefix(f: seq<nat>, z: seq<nat>, w: nat, k: nat)
    requires (k + 1) * w <= |f|
    ensures MatRow(Matrix(f + z, w), k) == MatRow(Matrix(f, w), k)
  {
    assert (k + 1) * w == k * w + w;
    assert (f + z)[k * w..(k + 1) * w] == f[k * w..(k + 1) * w];
  }

  /** A row that lies in the appended zeros is a zero row. */
  lemma RowInZeros(f: seq<nat>, n: nat, w: nat, k: nat)
    requires |f| <= k * w && (k + 1) * w <= |f| + n
    ensures MatRow(Matrix(f + ZeroRow(n), w), k) == ZeroRow(w)
  {
    assert (k + 1) * w == k * w + w;
    var all := f + ZeroRow(n);
    var row := all[k * w..(k + 1) * w];
    forall i | 0 <= i < w
      ensures row[i] == 0
    {
      assert row[i] == all[k * w + i];
    }
  }

  /** The two traces of the partitioned layout: the counts as a one-column
      common main trace and the fields as a cached trace of width `w`. */
  datatype PartitionedTraces = PartitionedTraces(commonMain: Matrix, cachedTrace: Matrix)

  /** `generate_traces_with_partition` up to the commitment of the cached
      trace: `count` and `fields` are padded in place with zeros to the next
      power of two of rows and then laid out. */
  method GenerateTracesWithPartition(air: DummyInteractionAir, data: DummyInteractionData)
    returns (r: Result<PartitionedTraces>)
    ensures r.Ok? <==> DataFits(air.fieldWidth, data)
    ensures r.Ok? ==>
      && r.value.commonMain == Matrix(data.count + ZeroRow(NextPowerOfTwo(|data.count|) - |data.count|), 1)
      && r.value.cachedTrace.width == air.fieldWidth
      && |r.value.cachedTrace.values| == NextPowerOfTwo(|data.count|) * air.fieldWidth
      && forall k :: 0 <= k < NextPowerOfTwo(|data.count|) ==>
           MatRow(r.value.cachedTrace, k) == if k < |data.count| then data.fields[k] else ZeroRow(air.fieldWidth)
  {
    var checked := CheckData(air.fieldWidth, data);
    if checked.Panic? {
      return Panic(checked.reason);
    }
    var w := air.fieldWidth;
    var count := data.count;
    var fields := data.fields;
    var h := NextPowerOfTwo(|count|);
    // `count.resize(h, 0)` and `fields.resize(h, vec![0; w])`
    count := count + ZeroRow(h - |count|);
    fields := fields + seq(h - |fields|, _ => ZeroRow(w));
    assert Uniform(fields, w);
    FlattenLength(fields, w);
    forall k | 0 <= k < h
      ensures MatRow(Matrix(Flatten(fields), w), k) == if k < |data.count| then data.fields[k] else ZeroRow(w)
    {
      FlattenRow(fields, w, k);
    }
    r := Ok(PartitionedTraces(Matrix(count, 1), Matrix(Flatten(fields), w)));
  }

  /** The data a `DummyInteractionChip` holds and the AIR it proves. */
  class DummyInteractionChip {
    var data: Option<DummyInteractionData>
    const air: DummyInteractionAir
    /** Whether the chip carries a device to commit its cached trace with:
        `new_with_partition` sets it, `new_without_partition` does not. */
    const hasDevice: bool

    /** `new_without_partition` (`partition == false`) and
        `new_with_partition` (`partition == true`). */
    constructor(fieldWidth: nat, isSend: bool, busIndex: nat, partition: bool)
      ensures data.None?
      ensures air == if partition then Partition(New(fieldWidth, isSend, busIndex)) else New(fieldWidth, isSend, busIndex)
      ensures hasDevice == partition
    {
      data := None;
      air := if partition then Partition(New(fieldWidth, isSend, busIndex)) else New(fieldWidth, isSend, busIndex);
      hasDevice := partition;
    }

    /** `load_data`: replaces the data after checking its shape. */
    method LoadData(d: DummyInteractionData) returns (r: Result<()>)
      modifies this
      ensures r.Ok? <==> DataFits(air.fieldWidth, d)
      ensures r.Ok? ==> data == Some(d) && CurrentTraceHeight() == |d.count|
      ensures r.Panic? ==> data == old(data)
    {
      var checked := CheckData(air.fieldWidth, d);
      if checked.Panic? {
        return Panic(checked.reason);
      }
      data := Some(d);
      return Ok(());
    }

    /** `current_trace_height`: the number of loaded rows, 0 before loading. */
    function CurrentTraceHeight(): (r: nat)
      reads this
      ensures data.None? ==> r == 0
    {
      match data
      case Some(d) => |d.count|
      case None => 0
    }

    /** `trace_width`. */
    function TraceWidth(): (r: nat)
      ensures r == Width(air)
    {
      air.fieldWidth + 1
    }
  }
}
