/** The Fibonacci oracles of the integration tests (tests/integration_test.rs):
    `get_fib_number` and `get_conditional_fib_number`, loops over `u32`
    values whose additions panic on overflow, as they do in a test build. */
module FibOracles {
  import opened Wrappers

  const U32Limit: nat := 0x1_0000_0000

  /** `F_0 = 0`, `F_1 = 1`, `F_(n+2) = F_n + F_(n+1)`. */
  function Fib(n: nat): nat {
    if n < 2 then n else Fib(n - 2) + Fib(n - 1)
  }

  lemma {:induction false} FibMonotone(i: nat, j: nat)
    requires i <= j
    ensures Fib(i) <= Fib(j)
    decreases j - i
  {
    if i < j {
      FibMonotone(i, j - 1);
      assert Fib(j - 1) <= Fib(j);
    }
  }

  /** The number of `true` selectors. */
  function CountTrue(sels: seq<bool>): (r: nat)
    ensures r <= |sels|
  {
    if |sels| == 0 then 0 else CountTrue(sels[..|sels| - 1]) + (if sels[|sels| - 1] then 1 else 0)
  }

  /** What `get_fib_number(n)` returns: `F_n`; `n == 0` underflows `n - 1`,
      and a Fibonacci number past `u32::MAX` overflows an addition. */
  function FibOracle(n: nat): (r: Result<nat>)
    ensures r.Ok? <==> n >= 1 && Fib(n) < U32Limit
    ensures r.Ok? ==> r.value == Fib(n)
  {
    if n == 0 then Panic("attempt to subtract with overflow")
    else if Fib(n) >= U32Limit then Panic("attempt to add with overflow")
    else Ok(Fib(n))
  }

  /** What `get_conditional_fib_number(sels)` returns: the pair advances at
      each selected position but the last, so the result is `F_(t+1)` for
      `t` selected positions before the last; empty `sels` underflows. */
  function ConditionalFibOracle(sels: seq<bool>): (r: Result<nat>)
    ensures r.Ok? <==> |sels| >= 1 && Fib(CountTrue(sels[..|sels| - 1]) + 1) < U32Limit
    ensures r.Ok? ==> |sels| >= 1 && r.value == Fib(CountTrue(sels[..|sels| - 1]) + 1)
  {
    if |sels| == 0 then Panic("attempt to subtract with overflow")
    else
      var value := Fib(CountTrue(sels[..|sels| - 1]) + 1);
      if value >= U32Limit then Panic("attempt to add with overflow") else Ok(value)
  }

  /** `get_fib_number`. */
  method GetFibNumber(n: nat) returns (r: Result<nat>)
    ensures r == FibOracle(n)
  {
    if n == 0 {
      return Panic("attempt to subtract with overflow");
    }
    var a: nat := 0;
    var b: nat := 1;
    for k := 0 to n - 1
      invariant a == Fib(k) && b == Fib(k + 1)
      invariant b < U32Limit
    {
      if a + b >= U32Limit {
        FibMonotone(k + 2, n);
        return Panic("attempt to add with overflow");
      }
      var c := a + b;
      a := b;
      b := c;
    }
    return Ok(b);
  }

  /** `get_conditional_fib_number`. */
  method GetConditionalFibNumber(sels: seq<bool>) returns (r: Result<nat>)
    ensures r == ConditionalFibOracle(sels)
  {
    if |sels| == 0 {
      return Panic("attempt to subtract with overflow");
    }
    var a: nat := 0;
    var b: nat := 1;
    var last := |sels| - 1;
    for k := 0 to last
      invariant a == Fib(CountTrue(sels[..k])) && b == Fib(CountTrue(sels[..k]) + 1)
      invariant b < U32Limit
    {
      assert sels[..k + 1][..k] == sels[..k];
      if sels[k] {
        if a + b >= U32Limit {
          FibMonotone(CountTrue(sels[..k]) + 2, CountTrue(sels[..last]) + 1) by {
            CountTrueMonotone(sels[..last], k + 1);
            assert sels[..last][..k + 1] == sels[..k + 1];
          }
          return Panic("attempt to add with overflow");
        }
        var c := a + b;
        a := b;
        b := c;
      }
    }
    return Ok(b);
  }

  /** Counting over a prefix counts no more. */
  lemma {:induction false} CountTrueMonotone(sels: seq<bool>, k: nat)
    requires k <= |sels|
    ensures CountTrue(sels[..k]) <= CountTrue(sels)
    decreases |sels|
  {
    if k < |sels| {
      var init := sels[..|sels| - 1];
      assert init[..k] == sels[..k];
      CountTrueMonotone(init, k);
    } else {
      assert sels[..k] == sels;
    }
  }

  /** With every selector set, the conditional oracle is `get_fib_number`
      of the number of selectors. */
  lemma {:induction false} AllSelectedIsFib(sels: seq<bool>)
    requires forall k :: 0 <= k < |sels| ==> sels[k]
    ensures ConditionalFibOracle(sels) == FibOracle(|sels|)
  {
    if |sels| > 0 {
      AllTrueCount(sels[..|sels| - 1]);
    }
  }

  lemma {:induction false} AllTrueCount(sels: seq<bool>)
    requires forall k :: 0 <= k < |sels| ==> sels[k]
    ensures CountTrue(sels) == |sels|
    decreases |sels|
  {
    if |sels| > 0 {
      AllTrueCount(sels[..|sels| - 1]);
    }
  }

  /** With no selector set before the last, the conditional oracle gives 1. */
  lemma NoneSelectedIsOne(sels: seq<bool>)
    requires |sels| >= 1
    requires forall k :: 0 <= k < |sels| - 1 ==> !sels[k]
    ensures ConditionalFibOracle(sels) == Ok(1)
  {
    NoTrueCount(sels[..|sels| - 1]);
  }

  lemma {:induction false} NoTrueCount(sels: seq<bool>)
    requires forall k :: 0 <= k < |sels| ==> !sels[k]
    ensures CountTrue(sels) == 0
    decreases |sels|
  {
    if |sels| > 0 {
      NoTrueCount(sels[..|sels| - 1]);
    }
  }

  /** The last selector is never read. */
  lemma LastSelectorIgnored(sels: seq<bool>, x: bool, y: bool)
    ensures ConditionalFibOracle(sels + [x]) == ConditionalFibOracle(sels + [y])
  {
    assert (sels + [x])[..|sels|] == sels;
    assert (sels + [y])[..|sels|] == sels;
  }
}
