/** The constraint-recording interface every AIR is written against (rap.rs).

    An `AirBuilder` receives constraints through `assert_zero`; its other
    assertions are defaults that hand `assert_zero` a derived expression, and
    `when(c)` wraps a builder in a `FilteredAirBuilder` that multiplies every
    assertion by `c` before passing it on.  The model records what reaches
    the innermost builder: a `ConstraintRecorder` keeps the base and the
    extension constraints in the order they were asserted, and a `Builder` is
    that recorder seen through a (possibly empty) chain of filters, the
    conditions listed outermost first.  Expressions are `Term`s; `Eval` gives
    them their value on a row so the recorded constraints can be read. */
module Rap {
  import opened Wrappers
  import opened Algebra

  /** A trace cell or public value an AIR reads from its builder: `main()`,
      `common_main()` and `cached_mains()[part]` at row `offset` (0 the
      current row, 1 the next), or `public_values()[index]`. */
  datatype Cell =
    | MainCell(offset: nat, col: nat)
    | CommonMainCell(offset: nat, col: nat)
    | CachedMainCell(part: nat, offset: nat, col: nat)
    | PublicValue(index: nat)

  /** `AB::Expr` (and `AB::ExprEF`) as far as the AIRs of the model build them. */
  datatype Term =
    | Var(cell: Cell)
    | Const(c: Val)
    | FirstRow
    | LastRow
    | TransitionWindow(size: nat)
    | Add(l: Term, r: Term)
    | Sub(l: Term, r: Term)
    | Mul(l: Term, r: Term)

  /** `Expr::ONE` and `Expr::TWO`. */
  const One: Term := Const(1)
  const Two: Term := Const(2)

  /** The values a row gives to variables and selectors. */
  datatype Row = Row(vars: Cell -> Val, isFirstRow: Val, isLastRow: Val, transitionWindow: nat -> Val)

  function Eval(row: Row, t: Term): Val {
    match t
    case Var(i) => row.vars(i)
    case Const(c) => c
    case FirstRow => row.isFirstRow
    case LastRow => row.isLastRow
    case TransitionWindow(s) => row.transitionWindow(s)
    case Add(l, r) => FAdd(Eval(row, l), Eval(row, r))
    case Sub(l, r) => FSub(Eval(row, l), Eval(row, r))
    case Mul(l, r) => FMul(Eval(row, l), Eval(row, r))
  }

  /** What `assert_zero(x)` on a filter chain with conditions `cs` records on
      the innermost builder: each filter, from the outermost one inwards,
      passes `condition * x` to the builder it wraps. */
  function Guard(cs: seq<Term>, x: Term): Term {
    if |cs| == 0 then x else Guard(cs[..|cs| - 1], Mul(cs[|cs| - 1], x))
  }

  /** The same for `assert_zero_ext`, which multiplies on the other side. */
  function GuardExt(cs: seq<Term>, x: Term): Term {
    if |cs| == 0 then x else GuardExt(cs[..|cs| - 1], Mul(x, cs[|cs| - 1]))
  }

  /** The innermost builder: the constraints asserted on it, in order. */
  class ConstraintRecorder {
    var constraints: seq<Term>
    var extConstraints: seq<Term>

    constructor()
      ensures constraints == [] && extConstraints == []
    {
      constraints := [];
      extConstraints := [];
    }
  }

  /** A builder: `recorder` behind the filters whose conditions are `conditions`. */
  class Builder {
    const recorder: ConstraintRecorder
    const conditions: seq<Term>

    constructor(recorder: ConstraintRecorder, conditions: seq<Term>)
      ensures this.recorder == recorder && this.conditions == conditions
    {
      this.recorder := recorder;
      this.conditions := conditions;
    }

    /** `is_first_row`, `is_last_row`, `is_transition_window`: a filter forwards
        them to the builder it wraps. */
    function IsFirstRow(): Term { FirstRow }
    function IsLastRow(): Term { LastRow }
    function IsTransitionWindow(size: nat): Term { TransitionWindow(size) }

    /** `is_transition`: the default is the window of two rows. */
    function IsTransition(): (r: Term)
      ensures r == IsTransitionWindow(2)
    {
      IsTransitionWindow(2)
    }

    /** `assert_zero`: the filters, innermost last, each multiply by their
        condition; the innermost builder records the product. */
    method AssertZero(x: Term)
      modifies recorder
      ensures recorder.constraints == old(recorder.constraints) + [Guard(conditions, x)]
      ensures recorder.extConstraints == old(recorder.extConstraints)
    {
      var e := x;
      var k := |conditions|;
      assert conditions[..k] == conditions;
      while k > 0
        invariant 0 <= k <= |conditions|
        invariant Guard(conditions[..k], e) == Guard(conditions, x)
      {
        assert conditions[..k][..k - 1] == conditions[..k - 1];
        e := Mul(conditions[k - 1], e);
        k := k - 1;
      }
      recorder.constraints := recorder.constraints + [e];
    }

    /** `assert_zero_ext`: as `assert_zero`, with the condition on the right. */
    method AssertZeroExt(x: Term)
      modifies recorder
      ensures recorder.extConstraints == old(recorder.extConstraints) + [GuardExt(conditions, x)]
      ensures recorder.constraints == old(recorder.constraints)
    {
      var e := x;
      var k := |conditions|;
      assert conditions[..k] == conditions;
      while k > 0
        invariant 0 <= k <= |conditions|
        invariant GuardExt(conditions[..k], e) == GuardExt(conditions, x)
      {
        assert conditions[..k][..k - 1] == conditions[..k - 1];
        e := Mul(e, conditions[k - 1]);
        k := k - 1;
      }
      recorder.extConstraints := recorder.extConstraints + [e];
    }

    /** `assert_one(x)`: asserts `x - 1`. */
    method AssertOne(x: Term)
      modifies recorder
      ensures recorder.constraints == old(recorder.constraints) + [Guard(conditions, Sub(x, One))]
      ensures recorder.extConstraints == old(recorder.extConstraints)
    {
      AssertZero(Sub(x, One));
    }

    /** `assert_eq(x, y)`: asserts `x - y`. */
    method AssertEq(x: Term, y: Term)
      modifies recorder
      ensures recorder.constraints == old(recorder.constraints) + [Guard(conditions, Sub(x, y))]
      ensures recorder.extConstraints == old(recorder.extConstraints)
    {
      AssertZero(Sub(x, y));
    }

    /** `assert_bool(x)`: asserts `x * (x - 1)`. */
    method AssertBool(x: Term)
      modifies recorder
      ensures recorder.constraints == old(recorder.constraints) + [Guard(conditions, Mul(x, Sub(x, One)))]
      ensures recorder.extConstraints == old(recorder.extConstraints)
    {
      AssertZero(Mul(x, Sub(x, One)));
    }

    /** `assert_tern(x)`: asserts `x * (x - 1) * (x - 2)`. */
    method AssertTern(x: Term)
      modifies recorder
      ensures recorder.constraints ==
        old(recorder.constraints) + [Guard(conditions, Mul(Mul(x, Sub(x, One)), Sub(x, Two)))]
      ensures recorder.extConstraints == old(recorder.extConstraints)
    {
      AssertZero(Mul(Mul(x, Sub(x, One)), Sub(x, Two)));
    }

    /** `assert_eq_ext(x, y)`: asserts `x - y` in the extension. */
    method AssertEqExt(x: Term, y: Term)
      modifies recorder
      ensures recorder.extConstraints == old(recorder.extConstraints) + [GuardExt(conditions, Sub(x, y))]
      ensures recorder.constraints == old(recorder.constraints)
    {
      AssertZeroExt(Sub(x, y));
    }

    /** `assert_one_ext(x)`: `assert_eq_ext(x, ONE)`. */
    method AssertOneExt(x: Term)
      modifies recorder
      ensures recorder.extConstraints == old(recorder.extConstraints) + [GuardExt(conditions, Sub(x, One))]
      ensures recorder.constraints == old(recorder.constraints)
    {
      AssertEqExt(x, One);
    }

    /** `when(c)`: a filter on top of this builder, over the same recorder. */
    method When(c: Term) returns (b: Builder)
      ensures fresh(b)
      ensures b.recorder == recorder && b.conditions == conditions + [c]
    {
      b := new Builder(recorder, conditions + [c]);
    }

    /** `when_ne(x, y)`: filters by `x - y`. */
    method WhenNe(x: Term, y: Term) returns (b: Builder)
      ensures fresh(b)
      ensures b.recorder == recorder && b.conditions == conditions + [Sub(x, y)]
    {
      b := When(Sub(x, y));
    }

    /** `when_first_row`. */
    method WhenFirstRow() returns (b: Builder)
      ensures fresh(b)
      ensures b.recorder == recorder && b.conditions == conditions + [FirstRow]
    {
      b := When(IsFirstRow());
    }

    /** `when_last_row`. */
    method WhenLastRow() returns (b: Builder)
      ensures fresh(b)
      ensures b.recorder == recorder && b.conditions == conditions + [LastRow]
    {
      b := When(IsLastRow());
    }

    /** `when_transition`: the two-row window. */
    method WhenTransition() returns (b: Builder)
      ensures fresh(b)
      ensures b.recorder == recorder && b.conditions == conditions + [TransitionWindow(2)]
    {
      b := When(IsTransition());
    }

    /** `when_transition_window(size)`. */
    method WhenTransitionWindow(size: nat) returns (b: Builder)
      ensures fresh(b)
      ensures b.recorder == recorder && b.conditions == conditions + [TransitionWindow(size)]
    {
      b := When(IsTransitionWindow(size));
    }
  }

  /** Every condition of the chain holds (is one) on `row`. */
  predicate AllOn(row: Row, cs: seq<Term>) {
    forall i :: 0 <= i < |cs| ==> Eval(row, cs[i]) == 1
  }

  /** Some condition of the chain is zero on `row`. */
  predicate SomeOff(row: Row, cs: seq<Term>) {
    exists i :: 0 <= i < |cs| && Eval(row, cs[i]) == 0
  }

  /** A filtered constraint is the constraint itself on the rows where every
      filter is on, and vanishes on the rows where some filter is off. */
  lemma {:induction false} GuardMeaning(row: Row, cs: seq<Term>, x: Term)
    ensures AllOn(row, cs) ==> Eval(row, Guard(cs, x)) == Eval(row, x)
    ensures SomeOff(row, cs) ==> Eval(row, Guard(cs, x)) == 0
    ensures Eval(row, x) == 0 ==> Eval(row, Guard(cs, x)) == 0
    decreases |cs|
  {
    if |cs| > 0 {
      var n := |cs| - 1;
      var y := Mul(cs[n], x);
      GuardMeaning(row, cs[..n], y);
      assert forall i :: 0 <= i < n ==> cs[..n][i] == cs[i];
      FMulUnitZero(Eval(row, cs[n]), Eval(row, x));
      if SomeOff(row, cs) && !SomeOff(row, cs[..n]) {
        assert Eval(row, cs[n]) == 0;
      }
    }
  }

  /** The extension variant, multiplying on the right, means the same. */
  lemma {:induction false} GuardExtMeaning(row: Row, cs: seq<Term>, x: Term)
    ensures AllOn(row, cs) ==> Eval(row, GuardExt(cs, x)) == Eval(row, x)
    ensures SomeOff(row, cs) ==> Eval(row, GuardExt(cs, x)) == 0
    ensures Eval(row, x) == 0 ==> Eval(row, GuardExt(cs, x)) == 0
    decreases |cs|
  {
    if |cs| > 0 {
      var n := |cs| - 1;
      var y := Mul(x, cs[n]);
      GuardExtMeaning(row, cs[..n], y);
      assert forall i :: 0 <= i < n ==> cs[..n][i] == cs[i];
      FMulUnitZero(Eval(row, x), Eval(row, cs[n]));
      if SomeOff(row, cs) && !SomeOff(row, cs[..n]) {
        assert Eval(row, cs[n]) == 0;
      }
    }
  }

  /** What the unfiltered defaults assert: `assert_one(x)` vanishes exactly
      where `x` is one, `assert_eq(x, y)` exactly where `x` and `y` agree, and
      `assert_bool` / `assert_tern` vanish on the boolean / ternary values. */
  lemma DefaultsMeaning(row: Row, x: Term, y: Term)
    ensures Eval(row, Sub(x, One)) == 0 <==> Eval(row, x) == 1
    ensures Eval(row, Sub(x, y)) == 0 <==> Eval(row, x) == Eval(row, y)
    ensures Eval(row, x) in {0, 1} ==> Eval(row, Mul(x, Sub(x, One))) == 0
    ensures Eval(row, x) in {0, 1, 2} ==> Eval(row, Mul(Mul(x, Sub(x, One)), Sub(x, Two))) == 0
  {
    var v := Eval(row, x);
    assert Eval(row, Sub(x, One)) == FSub(v, 1);
    assert Eval(row, Sub(x, Two)) == FSub(v, 2);
    SubZeroIffEqual(v, 1);
    SubZeroIffEqual(v, Eval(row, y));
    if v == 0 {
      assert FMul(FMul(v, FSub(v, 1)), FSub(v, 2)) == 0;
    } else if v == 1 {
      assert FSub(v, 1) == 0;
      assert FMul(FMul(v, FSub(v, 1)), FSub(v, 2)) == 0;
    } else if v == 2 {
      assert FSub(v, 2) == 0;
      assert FMul(FMul(v, FSub(v, 1)), FSub(v, 2)) == FMul(FMul(v, FSub(v, 1)), 0);
    }
  }

  /** In the field, `a - b` is zero exactly when `a == b`. */
  lemma SubZeroIffEqual(a: Val, b: Val)
    ensures FSub(a, b) == 0 <==> a == b
  {
    if a != b {
      assert -(P as int) < a - b < P;
    }
  }

  // ---------------------------------------------------------------------------
  // get_air_name

  /** `s` contains `pat` at position `i`. */
  predicate MatchesAt(s: string, pat: string, i: nat) {
    i + |pat| <= |s| && s[i..i + |pat|] == pat
  }

  ghost predicate NoMatch(s: string, pat: string) {
    forall i: nat :: !MatchesAt(s, pat, i)
  }

  predicate EndsWith(s: string, pat: string) {
    |s| >= |pat| && s[|s| - |pat|..] == pat
  }

  /** `s` contains no `::`, i.e. no path separator. */
  predicate NoPath(s: string) {
    forall i :: 0 <= i < |s| - 1 ==> !(s[i] == ':' && s[i + 1] == ':')
  }

  /** The first position at or after `from` where `pat` occurs. */
  function FindFrom(s: string, pat: string, from: nat): (r: Option<nat>)
    requires |pat| > 0
    ensures r.Some? ==> from <= r.value && MatchesAt(s, pat, r.value)
    ensures r.Some? ==> forall i: nat :: from <= i < r.value ==> !MatchesAt(s, pat, i)
    ensures r.None? ==> forall i: nat :: from <= i ==> !MatchesAt(s, pat, i)
    decreases |s| - from
  {
    if from + |pat| > |s| then None
    else if s[from..from + |pat|] == pat then Some(from)
    else FindFrom(s, pat, from + 1)
  }

  /** `str::split(pat)`: the pieces between the non-overlapping occurrences
      of `pat`, found from the left. */
  function Split(s: string, pat: string): (r: seq<string>)
    requires |pat| > 0
    ensures |r| > 0
    ensures NoMatch(r[|r| - 1], pat)
    decreases |s|
  {
    match FindFrom(s, pat, 0)
    case None => [s]
    case Some(i) => [s[..i]] + Split(s[i + |pat|..], pat)
  }

  /** `split("::").last()`: the last path segment. */
  function LastSegment(s: string): (r: string)
    ensures NoPath(r)
  {
    NoMatchNoPath(LastPiece(s, "::"));
    LastPiece(s, "::")
  }

  lemma NoMatchNoPath(s: string)
    requires NoMatch(s, "::")
    ensures NoPath(s)
  {
    forall i | 0 <= i < |s| - 1
      ensures !(s[i] == ':' && s[i + 1] == ':')
    {
      assert !MatchesAt(s, "::", i);
      assert s[i..i + 2] == [s[i], s[i + 1]];
    }
  }

  /** `trim_end_matches('>')`. */
  function TrimEndAngles(s: string): (r: string)
    ensures |r| == 0 || r[|r| - 1] != '>'
    ensures r <= s && forall i :: |r| <= i < |s| ==> s[i] == '>'
  {
    if |s| > 0 && s[|s| - 1] == '>' then TrimEndAngles(s[..|s| - 1]) else s
  }

  /** `split_once('<')`. */
  function SplitOnceAngle(s: string): (r: Option<(string, string)>)
    ensures r.None? <==> '<' !in s
    ensures r.Some? ==> s == r.value.0 + "<" + r.value.1 && '<' !in r.value.0
  {
    if '<' !in s then None
    else
      var i := FirstAngle(s);
      Some((s[..i], s[i + 1..]))
  }

  function FirstAngle(s: string): (i: nat)
    requires '<' in s
    ensures i < |s| && s[i] == '<' && '<' !in s[..i]
  {
    if s[0] == '<' then 0 else
      var j := FirstAngle(s[1..]);
      assert s[..j + 1] == [s[0]] + s[1..][..j];
      j + 1
  }

  /** `Vec::join(sep)`. */
  function Join(pieces: seq<string>, sep: string): string {
    if |pieces| == 0 then ""
    else if |pieces| == 1 then pieces[0]
    else pieces[0] + sep + Join(pieces[1..], sep)
  }

  function LastSegments(pieces: seq<string>): (r: seq<string>)
    ensures |r| == |pieces|
    ensures forall j :: 0 <= j < |r| ==> r[j] == LastSegment(pieces[j])
  {
    if |pieces| == 0 then [] else [LastSegment(pieces[0])] + LastSegments(pieces[1..])
  }

  /** `get_air_name`, given the compiler's `type_name` of the AIR. */
  function GetAirName(fullName: string): (r: string)
    ensures NoPath(r)
    ensures '<' !in fullName ==>
      exists p :: fullName == p + r && (p == "" || EndsWith(p, "::")) && NoPath(r)
    ensures SplitOnceAngle(fullName).Some? ==>
      var (mainPart, genericsPart) := SplitOnceAngle(fullName).value;
      r == LastSegment(mainPart) + "<" + Join(LastSegments(Split(TrimEndAngles(genericsPart), ", ")), ", ") + ">"
  {
    match SplitOnceAngle(fullName)
    case None =>
      LastSegmentIsSuffix(fullName);
      LastSegment(fullName)
    case Some((mainPart, genericsPart)) =>
      var mainType := LastSegment(mainPart);
      var generics := LastSegments(Split(TrimEndAngles(genericsPart), ", "));
      JoinFree(generics);
      NameFree(mainType, Join(generics, ", "));
      mainType + "<" + Join(generics, ", ") + ">"
  }

  /** The last `::` segment is a suffix that follows a `::` (or is everything). */
  lemma LastSegmentIsSuffix(s: string)
    ensures exists p :: s == p + LastSegment(s) && (p == "" || EndsWith(p, "::"))
  {
    var p := SplitSuffix(s, "::");
    assert s == p + LastSegment(s);
  }

  /** The last piece of `split(pat)`. */
  function LastPiece(s: string, pat: string): string
    requires |pat| > 0
  {
    var pieces := Split(s, pat);
    pieces[|pieces| - 1]
  }

  /** Past a separator, the last piece is the last piece of the rest. */
  lemma LastPieceStep(s: string, pat: string, i: nat)
    requires |pat| > 0 && FindFrom(s, pat, 0) == Some(i)
    ensures LastPiece(s, pat) == LastPiece(s[i + |pat|..], pat)
  {
    var pieces := Split(s[i + |pat|..], pat);
    var all := Split(s, pat);
    assert all == [s[..i]] + pieces;
    assert all[|all| - 1] == pieces[|pieces| - 1];
  }

  /** `split` consumes `s` from the left, so the last piece follows the
      last separator it found. */
  lemma {:induction false} SplitSuffix(s: string, pat: string) returns (p: string)
    requires |pat| > 0
    ensures s == p + LastPiece(s, pat)
    ensures p == "" || EndsWith(p, pat)
    decreases |s|
  {
    var found := FindFrom(s, pat, 0);
    if found.None? {
      assert Split(s, pat) == [s];
      p := "";
    } else {
      var i := found.value;
      LastPieceStep(s, pat, i);
      var q := SplitSuffix(s[i + |pat|..], pat);
      Reassemble(s, pat, i, q, LastPiece(s[i + |pat|..], pat));
      p := s[..i + |pat|] + q;
    }
  }

  /** A separator at `i` followed by `q + last` puts `last` after a prefix
      ending in the separator. */
  lemma Reassemble(s: string, pat: string, i: nat, q: string, last: string)
    requires MatchesAt(s, pat, i)
    requires s[i + |pat|..] == q + last
    requires q == "" || EndsWith(q, pat)
    ensures s == (s[..i + |pat|] + q) + last
    ensures EndsWith(s[..i + |pat|] + q, pat)
  {
    var head := s[..i + |pat|];
    assert head[i..] == pat;
    assert s == head + s[i + |pat|..];
    EndsWithConcat(head, q, pat);
  }

  lemma EndsWithConcat(a: string, q: string, pat: string)
    requires |a| >= |pat| && a[|a| - |pat|..] == pat
    requires q == "" || EndsWith(q, pat)
    ensures EndsWith(a + q, pat)
  {
    if q == "" {
      assert a + q == a;
    } else {
      assert (a + q)[|a + q| - |pat|..] == q[|q| - |pat|..];
    }
  }

  /** Pieces without `::` joined with `", "` contain no `::`. */
  lemma {:induction false} JoinFree(pieces: seq<string>)
    requires forall j :: 0 <= j < |pieces| ==> NoPath(pieces[j])
    ensures NoPath(Join(pieces, ", "))
  {
    if |pieces| > 1 {
      JoinFree(pieces[1..]);
      ConcatNoPath(pieces[0], ", ");
      ConcatNoPath(pieces[0] + ", ", Join(pieces[1..], ", "));
    }
  }

  /** Gluing two `::`-free strings creates no `::` unless the first ends and
      the second starts with a colon. */
  lemma ConcatNoPath(a: string, b: string)
    requires NoPath(a) && NoPath(b)
    requires |a| == 0 || |b| == 0 || a[|a| - 1] != ':' || b[0] != ':'
    ensures NoPath(a + b)
  {
    var s := a + b;
    forall i | 0 <= i < |s| - 1
      ensures !(s[i] == ':' && s[i + 1] == ':')
    {
      if i + 1 < |a| {
        assert s[i] == a[i] && s[i + 1] == a[i + 1];
      } else if i >= |a| {
        assert s[i] == b[i - |a|] && s[i + 1] == b[i - |a| + 1];
      }
    }
  }

  lemma NameFree(mainType: string, joined: string)
    requires NoPath(mainType) && NoPath(joined)
    ensures NoPath(mainType + "<" + joined + ">")
  {
    ConcatNoPath(mainType, "<");
    ConcatNoPath(mainType + "<", joined);
    ConcatNoPath(mainType + "<" + joined, ">");
  }

  /** A name in the shape `type_name` produces. */
  lemma AirNameExample(s: string)
    requires s == "air::Fib"
    ensures GetAirName(s) == "Fib"
  {
    assert '<' !in s;
    WithoutGenerics(s);
    ExampleSeparator(s);
    assert s[5..] == "Fib";
    LastPieceStep(s, "::", 3);
    WithoutSeparator("Fib");
  }

  /** A generic AIR with two generics, each under a path, as `type_name`
      prints it (`a::Foo<b::Bar, c::Baz>`): the main type and both
      generics lose their paths, and the generics keep their order. */
  lemma GenericAirName(path: string, name: string, path1: string, gen1: string, path2: string, gen2: string)
    requires ':' !in path && ':' !in name && '<' !in path && '<' !in name
    requires ':' !in path1 && ':' !in gen1 && ',' !in path1 && ',' !in gen1
    requires ':' !in path2 && ':' !in gen2 && ',' !in path2 && ',' !in gen2 && '>' !in gen2
    ensures GetAirName(path + "::" + name + "<" + path1 + "::" + gen1 + ", " + path2 + "::" + gen2 + ">")
            == name + "<" + gen1 + ", " + gen2 + ">"
  {
    var mainPart := path + "::" + name;
    SplitOnceGeneric(mainPart, path1, gen1, path2, gen2);
    QualifiedLastSegment(mainPart, path, name);
    GenericsLastSegments(path1, gen1, path2, gen2);
    JoinTwo(name, gen1, gen2);
  }

  /** The name splits at the `<` after the main type. */
  lemma SplitOnceGeneric(mainPart: string, path1: string, gen1: string, path2: string, gen2: string)
    requires '<' !in mainPart
    ensures SplitOnceAngle(mainPart + "<" + path1 + "::" + gen1 + ", " + path2 + "::" + gen2 + ">")
            == Some((mainPart, path1 + "::" + gen1 + ", " + path2 + "::" + gen2 + ">"))
  {
    var rest := path1 + "::" + gen1 + ", " + path2 + "::" + gen2 + ">";
    assert mainPart + "<" + path1 + "::" + gen1 + ", " + path2 + "::" + gen2 + ">" == mainPart + "<" + rest;
    SplitOnceAt(mainPart, rest);
  }

  lemma JoinTwo(name: string, gen1: string, gen2: string)
    ensures name + "<" + Join([gen1, gen2], ", ") + ">" == name + "<" + gen1 + ", " + gen2 + ">"
  {
    assert Join([gen1, gen2], ", ") == gen1 + ", " + gen2;
  }

  /** The generics part of that name, up to its closing `>`, reduces to
      the two generics' own names. */
  lemma GenericsLastSegments(path1: string, gen1: string, path2: string, gen2: string)
    requires ':' !in path1 && ':' !in gen1 && ',' !in path1 && ',' !in gen1
    requires ':' !in path2 && ':' !in gen2 && ',' !in path2 && ',' !in gen2 && '>' !in gen2
    ensures LastSegments(Split(TrimEndAngles(path1 + "::" + gen1 + ", " + path2 + "::" + gen2 + ">"), ", "))
            == [gen1, gen2]
  {
    var first := path1 + "::" + gen1;
    var generics := first + ", " + path2 + "::" + gen2;
    LastCharNotAngle(first + ", " + path2 + "::", gen2);
    TrimOne(generics);
    NoCommaQualified(path1, gen1);
    SplitTwo(first, path2, gen2);
    QualifiedLastSegment(first, path1, gen1);
    QualifiedLastSegment(path2 + "::" + gen2, path2, gen2);
  }

  /** A string ending in `::name`, where `name` has no `>`, does not end in `>`. */
  lemma LastCharNotAngle(prefix: string, name: string)
    requires |prefix| > 0 && prefix[|prefix| - 1] == ':' && '>' !in name
    ensures (prefix + name)[|prefix + name| - 1] != '>'
  {
    if |name| > 0 {
      assert (prefix + name)[|prefix + name| - 1] == name[|name| - 1];
    }
  }

  /** `trim_end_matches('>')` removes exactly one `>` from a string that
      does not end in `>` before it. */
  lemma TrimOne(x: string)
    requires |x| > 0 && x[|x| - 1] != '>'
    ensures TrimEndAngles(x + ">") == x
  {
    assert (x + ">")[..|x|] == x;
  }

  lemma NoCommaQualified(path: string, name: string)
    requires ',' !in path && ',' !in name
    ensures ',' !in path + "::" + name
  {
  }

  /** Two pieces without a comma, joined by `", "`, split back apart. */
  lemma SplitTwo(first: string, path2: string, gen2: string)
    requires ',' !in first && ',' !in path2 && ',' !in gen2
    ensures Split(first + ", " + path2 + "::" + gen2, ", ") == [first, path2 + "::" + gen2]
  {
    var second := path2 + "::" + gen2;
    var generics := first + ", " + second;
    assert first + ", " + path2 + "::" + gen2 == generics;
    assert MatchesAt(generics, ", ", |first|) && generics[..|first|] == first && generics[|first| + 2..] == second;
    assert forall j :: 0 <= j < |first| ==> generics[j] == first[j];
    FirstMatch(generics, ", ", |first|);
    NoFirstChar(second, ", ");
  }

  /** `split_once('<')` stops at the first `<`. */
  lemma SplitOnceAt(a: string, b: string)
    requires '<' !in a
    ensures SplitOnceAngle(a + "<" + b) == Some((a, b))
  {
    var s := a + "<" + b;
    var i := FirstAngle(s);
    assert s[|a|] == '<';
    assert s[..|a|] == a && s[|a| + 1..] == b;
  }

  /** The first match of `pat` is found when no earlier character starts it. */
  lemma FirstMatch(s: string, pat: string, i: nat)
    requires |pat| > 0 && MatchesAt(s, pat, i)
    requires forall j :: 0 <= j < i ==> s[j] != pat[0]
    ensures FindFrom(s, pat, 0) == Some(i)
  {
    forall j: nat | j < i
      ensures !MatchesAt(s, pat, j)
    {
      if j + |pat| <= |s| {
        assert s[j..j + |pat|][0] == s[j];
      }
    }
  }

  /** Without the first character of `pat`, `split(pat)` gives the whole string. */
  lemma NoFirstChar(t: string, pat: string)
    requires |pat| > 0 && pat[0] !in t
    ensures Split(t, pat) == [t]
  {
    forall i: nat
      ensures !MatchesAt(t, pat, i)
    {
      if i + |pat| <= |t| {
        assert t[i..i + |pat|][0] == t[i];
      }
    }
    assert FindFrom(t, pat, 0).None?;
  }

  /** `path::name`, with no colon in either part, has last segment `name`. */
  lemma QualifiedLastSegment(q: string, path: string, name: string)
    requires q == path + "::" + name && ':' !in path && ':' !in name
    ensures LastSegment(q) == name
  {
    assert MatchesAt(q, "::", |path|) && q[|path| + 2..] == name;
    forall j | 0 <= j < |path|
      ensures q[j] != ':'
    {
      assert q[j] == path[j];
    }
    FirstMatch(q, "::", |path|);
    LastPieceStep(q, "::", |path|);
    NoFirstChar(name, "::");
  }

  lemma WithoutGenerics(s: string)
    requires '<' !in s
    ensures GetAirName(s) == LastPiece(s, "::")
  {
  }

  lemma ExampleSeparator(s: string)
    requires s == "air::Fib"
    ensures FindFrom(s, "::", 0) == Some(3)
  {
    assert MatchesAt(s, "::", 3);
    forall i: nat | i < 3
      ensures !MatchesAt(s, "::", i)
    {
      assert s[i] != ':';
    }
  }

  /** A string without a colon is its own last segment. */
  lemma WithoutSeparator(t: string)
    requires ':' !in t
    ensures LastPiece(t, "::") == t
  {
    forall i: nat
      ensures !MatchesAt(t, "::", i)
    {
      if i + 2 <= |t| {
        assert t[i..i + 2][0] == t[i];
      }
    }
    assert FindFrom(t, "::", 0).None?;
    assert Split(t, "::") == [t];
  }
}
