/** Finding a run of set bits inside one word by doubling shifts (array_of_shifts).

    Each step replaces x by x & (x >> step).  The steps 1, 2, 4, ... below the
    highest power of two of the wanted length, and one last step for the rest,
    add up to the wanted length minus one. */
module Shifts {
  import opened Arithmetic
  import opened Bits

  /** power::of_2 on a power of two. */
  function Log2(w: nat): nat {
    if w <= 1 then 0 else 1 + Log2(w / 2)
  }

  /** compute_step<N>, cast to uint8_t. */
  function ComputeStep(i: nat, count: nat, frames: nat, d: nat): nat
    requires 0 < d <= frames
  {
    if i + 1 == count then (frames - d) % 256 else And(d - 1, Shl(1, i)) % 256
  }

  datatype ArrayOfShifts = ArrayOfShifts(step: seq<nat>) {
    /** The steps are applied in the order in which they are stored. */
    function Space(inv: nat): nat {
      Apply(inv, step)
    }
  }

  function Apply(x: nat, step: seq<nat>): nat
    decreases |step|
  {
    if step == [] then x else Apply(And(x, Shr(x, step[0])), step[1..])
  }

  function MakeShifts(width: nat, frames: nat): ArrayOfShifts
    requires frames > 0
  {
    var count := Log2(width);
    var d := HighestPow2(frames);
    ArrayOfShifts(seq(count, i requires 0 <= i < count => ComputeStep(i, count, frames, d)))
  }

  /** Bits p .. p + n - 1 of x are all set. */
  ghost predicate AllSet(x: nat, p: nat, n: nat) {
    forall q | p <= q < p + n :: Bit(x, q)
  }

  function Sum(step: seq<nat>): nat {
    if step == [] then 0 else step[0] + Sum(step[1..])
  }

  /** No step jumps further than the run that is already covered. */
  predicate Chained(step: seq<nat>, covered: nat) {
    step == [] || (step[0] <= covered && Chained(step[1..], covered + step[0]))
  }

  /** One step: from "the n bits from p" to "the n + k bits from p". */
  lemma StepCovers(x: nat, inv: nat, n: nat, k: nat, p: nat)
    requires forall q :: Bit(x, q) <==> AllSet(inv, q, n)
    requires k <= n
    ensures Bit(And(x, Shr(x, k)), p) <==> AllSet(inv, p, n + k)
  {
    AndBits(x, Shr(x, k), p);
    ShrBits(x, k, p);
    assert AllSet(inv, p, n + k) <==> AllSet(inv, p, n) && AllSet(inv, p + k, n) by {
      if AllSet(inv, p, n) && AllSet(inv, p + k, n) {
        forall q | p <= q < p + n + k
          ensures Bit(inv, q)
        {
          assert q < p + n || p + k <= q < p + k + n;
        }
      }
    }
  }

  lemma {:induction false} ApplyCovers(x: nat, inv: nat, n: nat, step: seq<nat>, p: nat)
    requires forall q :: Bit(x, q) <==> AllSet(inv, q, n)
    requires Chained(step, n)
    ensures Bit(Apply(x, step), p) <==> AllSet(inv, p, n + Sum(step))
    decreases |step|
  {
    if step != [] {
      var x' := And(x, Shr(x, step[0]));
      forall q
        ensures Bit(x', q) <==> AllSet(inv, q, n + step[0])
      {
        StepCovers(x, inv, n, step[0], q);
      }
      ApplyCovers(x', inv, n + step[0], step[1..], p);
    }
  }

  lemma {:induction false} ShlOne(x: nat, i: nat)
    ensures Shl(x, i) == x * Pow2(i)
    decreases i
  {
    if i > 0 {
      ShlOne(2 * x, i - 1);
      assert 2 * x * Pow2(i - 1) == x * Pow2(i);
    }
  }

  lemma {:induction false} LowMaskBit(j: nat, i: nat)
    ensures And(Pow2(j) - 1, Pow2(i)) == if i < j then Pow2(i) else 0
  {
    if j > 0 {
      assert Pow2(j) - 1 == 2 * (Pow2(j - 1) - 1) + 1;
      if i > 0 {
        LowMaskBit(j - 1, i - 1);
      } else {
        AndZero((Pow2(j) - 1) / 2);
      }
    }
  }

  lemma {:induction false} HighestIsPow2(x: nat) returns (j: nat)
    requires x != 0
    ensures HighestPow2(x) == Pow2(j)
  {
    if x == 1 {
      j := 0;
    } else {
      var i := HighestIsPow2(x / 2);
      j := i + 1;
    }
  }

  lemma {:induction false} Pow2Monotone(i: nat, j: nat)
    requires i <= j
    ensures Pow2(i) <= Pow2(j)
    decreases j
  {
    if i < j {
      Pow2Monotone(i, j - 1);
    }
  }

  /** Every step but the last is one binary digit of d - 1. */
  lemma StepValue(i: nat, count: nat, frames: nat, d: nat, j: nat)
    requires i + 1 < count <= 8
    requires 0 < d <= frames && d == Pow2(j)
    ensures ComputeStep(i, count, frames, d) == if i < j then Pow2(i) else 0
  {
    var bit := Pow2(i);
    assert bit < 256 by {
      Pow2Monotone(i, 7);
      assert Pow2(7) == 128;
    }
    assert Shl(1, i) == bit by {
      ShlOne(1, i);
    }
    assert And(d - 1, bit) == if i < j then bit else 0 by {
      LowMaskBit(j, i);
    }
  }

  lemma SuffixUnfold(step: seq<nat>, i: nat, covered: nat)
    requires i < |step|
    ensures Sum(step[i..]) == step[i] + Sum(step[i + 1..])
    ensures Chained(step[i..], covered) <==> step[i] <= covered && Chained(step[i + 1..], covered + step[i])
  {
    assert step[i..] == [step[i]] + step[i + 1..];
  }

  lemma LeastPow2(i: nat, j: nat)
    ensures Min(Pow2(i + 1), Pow2(j)) == Min(Pow2(i), Pow2(j)) + if i < j then Pow2(i) else 0
    ensures i < j ==> Min(Pow2(i), Pow2(j)) == Pow2(i)
  {
    if i < j {
      Pow2Monotone(i + 1, j);
    } else {
      Pow2Monotone(j, i);
    }
  }

  /** The steps from i on are chained onto what the first i steps covered. */
  lemma {:induction false} StepsFrom(step: seq<nat>, frames: nat, j: nat, i: nat)
    requires i < |step|
    requires Pow2(j) <= frames < 2 * Pow2(j) && j < |step|
    requires forall k | 0 <= k < |step| - 1 :: step[k] == if k < j then Pow2(k) else 0
    requires step[|step| - 1] == frames - Pow2(j)
    ensures var covered := Min(Pow2(i), Pow2(j));
            Chained(step[i..], covered) && covered + Sum(step[i..]) == frames
    decreases |step| - i
  {
    hide Pow2, Sum, Chained, Min;
    var covered := Min(Pow2(i), Pow2(j));
    SuffixUnfold(step, i, covered);
    if i + 1 == |step| {
      LastStep(step[i + 1..], i, j);
    } else {
      LeastPow2(i, j);
      StepsFrom(step, frames, j, i + 1);
    }
  }

  lemma LastStep(rest: seq<nat>, i: nat, j: nat)
    requires rest == [] && j <= i
    ensures Min(Pow2(i), Pow2(j)) == Pow2(j)
    ensures Sum(rest) == 0 && forall covered :: Chained(rest, covered)
  {
    Pow2Monotone(j, i);
  }

  lemma WidthOf(width: nat)
    requires width in {8, 16, 32}
    ensures 0 < Log2(width) <= 8 && width == Pow2(Log2(width))
  {
    assert Log2(8) == 3 && Log2(16) == 4 && Log2(32) == 5;
    assert Pow2(3) == 8 && Pow2(4) == 16 && Pow2(5) == 32;
  }

  /** The steps for one word width are chained and add up to the wanted length minus one. */
  lemma StepsExact(width: nat, frames: nat)
    requires width in {8, 16, 32} && 0 < frames < width
    ensures Chained(MakeShifts(width, frames).step, 1)
    ensures Sum(MakeShifts(width, frames).step) == frames - 1
  {
    hide Log2, Pow2, ComputeStep, HighestPow2, Sum, Chained;
    WidthOf(width);
    var step := MakeShifts(width, frames).step;
    var count := Log2(width);
    var d := HighestPow2(frames);
    var j := HighestIsPow2(frames);
    forall k | 0 <= k < count - 1
      ensures step[k] == if k < j then Pow2(k) else 0
    {
      StepValue(k, count, frames, d, j);
    }
    LastStepValue(count, frames, d);
    if count <= j {
      Pow2Monotone(count, j);
    }
    FirstCovered(j);
    StepsFrom(step, frames, j, 0);
    assert step[0..] == step;
  }

  lemma LastStepValue(count: nat, frames: nat, d: nat)
    requires 0 < count && 0 < d <= frames < 256
    ensures ComputeStep(count - 1, count, frames, d) == frames - d
  {
  }

  lemma FirstCovered(j: nat)
    ensures Min(Pow2(0), Pow2(j)) == 1
  {
    Pow2Monotone(0, j);
  }

  /** Shift doubling is exact for every word width and every length that can be buried in a
      word: bit p survives iff the run of that length starting at p is all set. */
  lemma SpaceExact(width: nat, frames: nat, inv: nat, p: nat)
    requires width in {8, 16, 32} && 0 < frames < width
    ensures Bit(MakeShifts(width, frames).Space(inv), p) <==> AllSet(inv, p, frames)
  {
    StepsExact(width, frames);
    forall q
      ensures Bit(inv, q) <==> AllSet(inv, q, 1)
    {
      assert AllSet(inv, q, 1) ==> Bit(inv, q);
    }
    ApplyCovers(inv, inv, 1, MakeShifts(width, frames).step, p);
  }

  /** The trailing zeros of the result are the earliest run buried in the word, if there is one. */
  lemma EarliestInWord(width: nat, frames: nat, inv: nat)
    requires width in {8, 16, 32} && 0 < frames < width
    ensures var s := MakeShifts(width, frames).Space(inv);
            if s == 0 then forall p :: !AllSet(inv, p, frames)
            else AllSet(inv, TrailingZeros(s), frames) && forall p | 0 <= p < TrailingZeros(s) :: !AllSet(inv, p, frames)
  {
    var s := MakeShifts(width, frames).Space(inv);
    forall p: nat
      ensures Bit(s, p) <==> AllSet(inv, p, frames)
    {
      SpaceExact(width, frames, inv, p);
    }
    if s == 0 {
      forall p: nat
        ensures !Bit(s, p)
      {
        ZeroHasNoBits(p);
      }
    }
  }
}
