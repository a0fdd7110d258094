/** Test helpers of the SDK (stark-sdk/src/utils.rs): the proof input of a
    test with its length check and chip sorting, the deterministic RNG
    seeds, and the conversions into field elements.

    The random number generator itself is not modelled: a seed stands for
    the generator made from it, and the values it draws are a parameter. */
module SdkUtils {
  import opened Wrappers
  import opened Algebra

  /** The part of an `AirProofInput` the helpers read: the height of the
      common main trace, when there is one; `T` stands for the rest. */
  datatype AirProofInput<T> = AirProofInput(commonMainHeight: Option<nat>, rest: T)

  /** The sort key: the common-main height, 0 without a common main. */
  function Height<A, T>(p: (A, AirProofInput<T>)): nat {
    p.1.commonMainHeight.UnwrapOr(0)
  }

  /** `zip`: pairs up to the shorter of the two lists. */
  function Zip<A, B>(xs: seq<A>, ys: seq<B>): (r: seq<(A, B)>)
    ensures |r| == Min(|xs|, |ys|)
    ensures forall i :: 0 <= i < |r| ==> r[i] == (xs[i], ys[i])
  {
    seq(Min(|xs|, |ys|), i requires 0 <= i < Min(|xs|, |ys|) => (xs[i], ys[i]))
  }

  /** `unzip`: the first and the second components, in order. */
  function Unzip<A, B>(ps: seq<(A, B)>): (r: (seq<A>, seq<B>))
    ensures |r.0| == |ps| && |r.1| == |ps|
    ensures forall i :: 0 <= i < |ps| ==> ps[i] == (r.0[i], r.1[i])
  {
    (seq(|ps|, i requires 0 <= i < |ps| => ps[i].0), seq(|ps|, i requires 0 <= i < |ps| => ps[i].1))
  }

  /** Unzipping undoes zipping lists of equal length. */
  lemma UnzipZip<A, B>(xs: seq<A>, ys: seq<B>)
    requires |xs| == |ys|
    ensures Unzip(Zip(xs, ys)) == (xs, ys)
  {
    var r := Unzip(Zip(xs, ys));
    assert r.0 == xs;
    assert r.1 == ys;
  }

  /** Heights do not increase along the list. */
  ghost predicate NonIncreasing<A, T>(ps: seq<(A, AirProofInput<T>)>) {
    forall i, j :: 0 <= i < j < |ps| ==> Height(ps[i]) >= Height(ps[j])
  }

  /** Insert `p` after every entry at least as high: the step of a stable
      sort by descending height. */
  function Insert<A, T>(ps: seq<(A, AirProofInput<T>)>, p: (A, AirProofInput<T>)): (r: seq<(A, AirProofInput<T>)>)
    ensures multiset(r) == multiset(ps) + multiset{p}
    ensures |r| == |ps| + 1
  {
    if |ps| == 0 then [p]
    else if Height(ps[0]) >= Height(p) then
      assert ps == [ps[0]] + ps[1..];
      [ps[0]] + Insert(ps[1..], p)
    else [p] + ps
  }

  /** `sorted_by_key(|(_, input)| Reverse(height))`: the stable sort by
      descending common-main height. */
  function SortByHeightDesc<A, T>(ps: seq<(A, AirProofInput<T>)>): (r: seq<(A, AirProofInput<T>)>)
    ensures multiset(r) == multiset(ps)
    ensures |r| == |ps|
  {
    if |ps| == 0 then []
    else
      assert ps == ps[..|ps| - 1] + [ps[|ps| - 1]];
      Insert(SortByHeightDesc(ps[..|ps| - 1]), ps[|ps| - 1])
  }

  lemma {:induction false} InsertSorted<A, T>(ps: seq<(A, AirProofInput<T>)>, p: (A, AirProofInput<T>))
    requires NonIncreasing(ps)
    ensures NonIncreasing(Insert(ps, p))
    decreases |ps|
  {
    if |ps| > 0 && Height(ps[0]) >= Height(p) {
      var tail := ps[1..];
      assert NonIncreasing(tail) by {
        forall i, j | 0 <= i < j < |tail|
          ensures Height(tail[i]) >= Height(tail[j])
        {
          assert tail[i] == ps[i + 1] && tail[j] == ps[j + 1];
        }
      }
      InsertSorted(tail, p);
      var rest := Insert(tail, p);
      InsertMembers(tail, p);
      var r := [ps[0]] + rest;
      forall i, j | 0 <= i < j < |r|
        ensures Height(r[i]) >= Height(r[j])
      {
        assert r[j] == rest[j - 1];
        if i == 0 {
          if r[j] != p {
            assert rest[j - 1] in rest;
            var k :| 0 <= k < |tail| && tail[k] == r[j];
            assert ps[k + 1] == r[j];
          }
        } else {
          assert r[i] == rest[i - 1];
        }
      }
    } else if |ps| > 0 {
      var r := [p] + ps;
      forall i, j | 0 <= i < j < |r|
        ensures Height(r[i]) >= Height(r[j])
      {
        assert r[j] == ps[j - 1];
        if i > 0 {
          assert r[i] == ps[i - 1];
        } else if j > 1 {
          assert Height(ps[0]) >= Height(ps[j - 1]);
        }
      }
    }
  }

  /** Inserting adds `p` and nothing else. */
  lemma InsertMembers<A, T>(ps: seq<(A, AirProofInput<T>)>, p: (A, AirProofInput<T>))
    ensures forall x :: x in Insert(ps, p) ==> x == p || x in ps
  {
    var r := Insert(ps, p);
    forall x | x in r
      ensures x == p || x in ps
    {
      assert x in multiset(r);
    }
  }

  /** The sorted list has non-increasing heights and holds exactly the
      input pairs, each AIR still next to its own proof input. */
  lemma {:induction false} SortByHeightDescSorted<A, T>(ps: seq<(A, AirProofInput<T>)>)
    ensures NonIncreasing(SortByHeightDesc(ps))
    ensures multiset(SortByHeightDesc(ps)) == multiset(ps)
    decreases |ps|
  {
    if |ps| > 0 {
      SortByHeightDescSorted(ps[..|ps| - 1]);
      InsertSorted(SortByHeightDesc(ps[..|ps| - 1]), ps[|ps| - 1]);
    }
  }

  /** `ProofInputForTest`: the AIRs of a test and their proof inputs. */
  class ProofInputForTest<A, T> {
    var airs: seq<A>
    var perAir: seq<AirProofInput<T>>

    constructor(airs: seq<A>, perAir: seq<AirProofInput<T>>)
      ensures this.airs == airs && this.perAir == perAir
    {
      this.airs := airs;
      this.perAir := perAir;
    }

    /** `run_test`: the engine's outcome (passed in, as the engine is not
        part of this model) once there is one proof input per AIR. */
    method RunTest<R>(engineOutcome: R) returns (r: Result<R>)
      ensures r.Ok? <==> |airs| == |perAir|
      ensures r.Ok? ==> r.value == engineOutcome
    {
      if |airs| != |perAir| {
        return Panic("assertion `left == right` failed: airs.len() == per_air.len()");
      }
      return Ok(engineOutcome);
    }

    /** `sort_chips`: reorders the AIRs and their proof inputs together by
        descending common-main height, keeping the order of equal heights;
        `zip` drops the unpaired tail of the longer list. */
    method SortChips()
      modifies this
      ensures (airs, perAir) == Unzip(SortByHeightDesc(Zip(old(airs), old(perAir))))
      ensures |airs| == |perAir| == Min(old(|airs|), old(|perAir|))
    {
      var pairs := Zip(airs, perAir);
      var sorted := Unzip(SortByHeightDesc(pairs));
      airs := sorted.0;
      perAir := sorted.1;
    }
  }

  /** After `sort_chips` the heights do not increase, and the pairs are
      those of the input. */
  lemma SortChipsMeaning<A, T>(airs: seq<A>, perAir: seq<AirProofInput<T>>)
    requires |airs| == |perAir|
    ensures var r := Unzip(SortByHeightDesc(Zip(airs, perAir)));
      && (forall i, j :: 0 <= i < j < |r.1| ==> r.1[i].commonMainHeight.UnwrapOr(0) >= r.1[j].commonMainHeight.UnwrapOr(0))
      && multiset(Zip(r.0, r.1)) == multiset(Zip(airs, perAir))
  {
    var ps := Zip(airs, perAir);
    var sorted := SortByHeightDesc(ps);
    SortByHeightDescSorted(ps);
    var r := Unzip(sorted);
    assert Zip(r.0, r.1) == sorted;
    forall i, j | 0 <= i < j < |r.1|
      ensures r.1[i].commonMainHeight.UnwrapOr(0) >= r.1[j].commonMainHeight.UnwrapOr(0)
    {
      assert Height(sorted[i]) >= Height(sorted[j]);
    }
  }

  // ---------------------------------------------------------------------
  // Seeds
  // ---------------------------------------------------------------------

  /** A byte, as `u8`. */
  type Byte = x: nat | x < 256

  const U64Limit: nat := 0x1_0000_0000_0000_0000

  function Pow256(n: nat): (r: nat)
    ensures r >= 1
  {
    if n == 0 then 1 else 256 * Pow256(n - 1)
  }

  /** `to_be_bytes` of an `n`-byte integer: most significant byte first. */
  function ToBeBytes(x: nat, n: nat): (r: seq<Byte>)
    ensures |r| == n
  {
    if n == 0 then [] else ToBeBytes(x / 256, n - 1) + [x % 256]
  }

  /** The integer a big-endian byte string denotes. */
  function FromBeBytes(bs: seq<Byte>): nat {
    if |bs| == 0 then 0 else FromBeBytes(bs[..|bs| - 1]) * 256 + bs[|bs| - 1]
  }

  /** Reading the bytes back gives the integer, when it fits in `n` bytes. */
  lemma {:induction false} BeBytesRoundTrip(x: nat, n: nat)
    requires x < Pow256(n)
    ensures FromBeBytes(ToBeBytes(x, n)) == x
  {
    if n > 0 {
      var bs := ToBeBytes(x, n);
      assert bs[..n - 1] == ToBeBytes(x / 256, n - 1);
      assert x / 256 < Pow256(n - 1);
      BeBytesRoundTrip(x / 256, n - 1);
    }
  }

  /** The seed of `create_seeded_rng`: 32 bytes of 42. */
  function DefaultSeed(): (r: seq<Byte>)
    ensures |r| == 32 && forall i :: 0 <= i < 32 ==> r[i] == 42
  {
    seq(32, i => 42)
  }

  /** The seed of `create_seeded_rng_with_seed(seed)`: 24 zero bytes, then
      the big-endian bytes of the `u64`. */
  function SeedFromU64(seed: nat): (r: seq<Byte>)
    requires seed < U64Limit
    ensures |r| == 32
    ensures forall i :: 0 <= i < 24 ==> r[i] == 0
    ensures FromBeBytes(r[24..]) == seed
  {
    var r := seq(24, i => 0) + ToBeBytes(seed, 8);
    assert r[24..] == ToBeBytes(seed, 8);
    Pow256Eight();
    BeBytesRoundTrip(seed, 8);
    r
  }

  lemma Pow256Eight()
    ensures Pow256(8) == U64Limit
  {
    assert Pow256(4) == 0x1_0000_0000;
  }

  /** Different `u64` seeds give different generators. */
  lemma SeedFromU64Injective(s: nat, t: nat)
    requires s < U64Limit && t < U64Limit && SeedFromU64(s) == SeedFromU64(t)
    ensures s == t
  {
  }

  // ---------------------------------------------------------------------
  // Conversions
  // ---------------------------------------------------------------------

  /** `to_field_vec`: `from_canonical_u32` on each entry, which asks for
      values already below the modulus. */
  function ToFieldVec(v: seq<nat>): (r: seq<Val>)
    requires forall i :: 0 <= i < |v| ==> v[i] < P
    ensures |r| == |v| && forall i :: 0 <= i < |v| ==> r[i] as nat == v[i]
  {
    seq(|v|, i requires 0 <= i < |v| => v[i] as Val)
  }

  /** `generate_random_matrix`: `height` rows of `width` entries, each a
      drawn `u32` reduced into the field by `from_wrapped_u32`; `draw(k)`
      is the `k`-th value the generator yields. */
  function GenerateRandomMatrix(draw: nat -> nat, height: nat, width: nat): (r: seq<seq<Val>>)
    ensures |r| == height
    ensures forall i :: 0 <= i < height ==> |r[i]| == width
    ensures forall i, j :: 0 <= i < height && 0 <= j < width ==> r[i][j] == draw(i * width + j) % P
  {
    seq(height, i requires 0 <= i => RandomRow(draw, i * width, width))
  }

  /** Row of `width` entries drawn from the `start`-th value on. */
  function RandomRow(draw: nat -> nat, start: nat, width: nat): (r: seq<Val>)
    ensures |r| == width && forall j :: 0 <= j < width ==> r[j] == draw(start + j) % P
  {
    seq(width, j requires 0 <= j => (draw(start + j) % P) as Val)
  }
}
