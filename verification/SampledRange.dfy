/** `sampledRange` (synccheck.go): about 25 values spread over a range of uint64s. */
module SampledRange {
  import opened Arithmetic
  import opened Bytes
  import opened MachineInts
  import opened Wrappers

  const COMPARED_SAMPLES := 25

  function Step(first: uint64, last: uint64): (step: uint64)
    requires first <= last
    ensures step >= 1
  {
    var step := (last - first) / COMPARED_SAMPLES;
    if step < 1 then 1 else step
  }

  /** How many steps the loop takes to reach last: the distance over the step,
      rounded up. */
  function StepsToLast(first: uint64, last: uint64): nat
    requires first <= last
  {
    Div(last - first + Step(first, last) - 1, Step(first, last))
  }

  /** The value that ends the loop is a uint64. */
  predicate Fits(first: uint64, last: uint64) {
    first <= last ==> first + Mul(StepsToLast(first, last), Step(first, last)) < TWO64
  }

  lemma StepsUnique(first: uint64, last: uint64, k: nat)
    requires first <= last && Mul(k, Step(first, last)) >= last - first
    requires k > 0 ==> Mul(k - 1, Step(first, last)) < last - first
    ensures k == StepsToLast(first, last)
  {
    var step, distance := Step(first, last), last - first;
    if k == 0 {
      QuotientIs(step - 1, 0, step - 1, step);
    } else {
      MulDistributes(step, k - 1, 1);
      QuotientIs(distance + step - 1, k, distance + step - 1 - Mul(k, step), step);
    }
  }

  /** Leaving one step of room above last is enough, and ranges under 50 always fit. */
  lemma RoomSuffices(first: uint64, last: uint64)
    requires first <= last && (last + Step(first, last) <= TWO64 || last - first < 50)
    ensures Fits(first, last)
  {
    var step := Step(first, last);
    var steps := StepsToLast(first, last);
    QuotientTimes(last - first + step - 1, step);
  }

  /** Before the loop ends, fewer than 49 values are behind it. */
  lemma IndexBound(i: nat, step: nat, distance: nat)
    requires step == (if distance / COMPARED_SAMPLES < 1 then 1 else distance / COMPARED_SAMPLES)
    requires Mul(i, step) < distance
    ensures i <= 48 && (distance >= 50 ==> i < 40)
  {
    if step == 1 {
      assert distance < 50;
    } else {
      assert distance < 25 * step + 25 <= 25 * step + 13 * step;
      if i >= 38 { MulMonotone(38, i, step); }
    }
  }

  /** From first to last, both included, in strictly increasing order. */
  predicate Spreads(values: seq<uint64>, first: uint64, last: uint64) {
    && |values| > 0 && values[0] == first && values[|values| - 1] == last
    && forall i :: 0 <= i < |values| - 1 ==> values[i] < values[i + 1]
  }

  lemma OneMore(k: nat, step: nat)
    ensures Mul(k + 1, step) == Mul(k, step) + step
  {}

  // ---- The loop's counter ----

  /** The counter after k turns. */
  function ValueAfter(first: uint64, last: uint64, k: nat): uint64
    requires first <= last
  {
    Wrap(first + Mul(k, Step(first, last)))
  }

  /** The loop ends after k turns. */
  predicate EndsAt(first: uint64, last: uint64, k: nat)
    requires first <= last
  {
    ValueAfter(first, last, k) >= last && forall j: nat :: j < k ==> ValueAfter(first, last, j) < last
  }

  lemma NextValue(first: uint64, last: uint64, k: nat)
    requires first <= last
    ensures ValueAfter(first, last, k + 1) == Wrap(ValueAfter(first, last, k) + Step(first, last))
  {
    OneMore(k, Step(first, last));
    WrapAdds(first + Mul(k, Step(first, last)), Step(first, last));
  }

  lemma StepsReachLast(first: uint64, last: uint64)
    requires first <= last
    ensures var steps, step := StepsToLast(first, last), Step(first, last);
            && Mul(steps, step) >= last - first
            && (steps > 0 ==> Mul(steps - 1, step) < last - first)
  {
    var step, n := Step(first, last), last - first + Step(first, last) - 1;
    var steps := n / step;
    assert n == steps * step + n % step;
    if steps > 0 { MulDistributes(step, steps - 1, 1); }
  }

  /** Until it would pass last, the counter does not wrap. */
  lemma NoWrapBefore(first: uint64, last: uint64, k: nat)
    requires first <= last && k < StepsToLast(first, last)
    ensures ValueAfter(first, last, k) == first + Mul(k, Step(first, last)) < last
  {
    var steps := StepsToLast(first, last);
    StepsReachLast(first, last);
    MulMonotone(k, steps - 1, Step(first, last));
    WrapFits(first + Mul(k, Step(first, last)));
  }

  lemma WrapOnce(value: uint64, step: uint64)
    requires value + step >= TWO64
    ensures Wrap(value + step) == value + step - TWO64 < value
  {}

  /** The loop ends where the counter first passes last exactly when that value fits. */
  lemma EndsWhereItFits(first: uint64, last: uint64)
    requires first <= last
    ensures EndsAt(first, last, StepsToLast(first, last)) <==> Fits(first, last)
    ensures !Fits(first, last) ==>
      var steps := StepsToLast(first, last);
      steps > 0 && ValueAfter(first, last, steps) < ValueAfter(first, last, steps - 1) < last
  {
    var steps, step := StepsToLast(first, last), Step(first, last);
    StepsReachLast(first, last);
    forall j: nat | j < steps
      ensures ValueAfter(first, last, j) < last
    {
      NoWrapBefore(first, last, j);
    }
    if Fits(first, last) {
      WrapFits(first + Mul(steps, step));
    } else {
      NoWrapBefore(first, last, steps - 1);
      OneMore(steps - 1, step);
      WrapOnce(first + Mul(steps - 1, step), step);
    }
  }

  /** The list of a loop that ended after k turns. */
  predicate IsSample(values: seq<uint64>, first: uint64, last: uint64, k: nat)
    requires first <= last
  {
    && |values| == k + 1 && values[k] == last
    && forall i: nat :: i < k ==> values[i] == ValueAfter(first, last, i)
  }

  lemma SampleValues(values: seq<uint64>, first: uint64, last: uint64, k: nat)
    requires first <= last && Fits(first, last) && EndsAt(first, last, k) && IsSample(values, first, last, k)
    ensures k == StepsToLast(first, last) <= 49
    ensures forall i: nat :: i < k ==> values[i] == first + Mul(i, Step(first, last)) < last
    ensures last <= first + Mul(k, Step(first, last))
  {
    EndsWhereItFits(first, last);
    assert k == StepsToLast(first, last);
    StepsReachLast(first, last);
    if k > 0 { IndexBound(k - 1, Step(first, last), last - first); }
    forall i: nat | i < k
      ensures values[i] == first + Mul(i, Step(first, last)) < last
    {
      NoWrapBefore(first, last, i);
    }
  }

  lemma ShortSteps(first: uint64, last: uint64)
    requires first <= last && last - first < 50
    ensures Step(first, last) == 1 && StepsToLast(first, last) == last - first
    ensures forall i: nat :: Mul(i, 1) == i
  {}

  lemma Gap(values: seq<uint64>, first: uint64, last: uint64, k: nat, i: nat)
    requires first <= last && |values| == k + 1 && values[k] == last && i < k
    requires forall i: nat :: i < k ==> values[i] == first + Mul(i, Step(first, last)) < last
    requires last <= first + Mul(k, Step(first, last))
    ensures values[i] < values[i + 1] <= values[i] + Step(first, last)
  {
    OneMore(i, Step(first, last));
  }

  /** Where the counter does not wrap, the list spreads from first to last, in gaps of at
      most one step, with at most 50 values, and with every value of a short range. */
  lemma SampleSpreads(values: seq<uint64>, first: uint64, last: uint64, k: nat)
    requires first <= last && Fits(first, last) && EndsAt(first, last, k) && IsSample(values, first, last, k)
    ensures k == StepsToLast(first, last) && |values| <= 50 && Spreads(values, first, last)
    ensures forall i :: 0 <= i < |values| - 1 ==> values[i + 1] - values[i] <= Step(first, last)
    ensures last - first < 50 ==> |values| == last - first + 1 && forall i :: 0 <= i < |values| ==> values[i] == first + i
  {
    SampleValues(values, first, last, k);
    forall i: nat | i < k
      ensures values[i] < values[i + 1] <= values[i] + Step(first, last)
    {
      Gap(values, first, last, k, i);
    }
    assert Mul(0, Step(first, last)) == 0;
    if last - first < 50 {
      ShortSteps(first, last);
    }
  }

  /** Where it wraps, the list goes back on the way, if there ever is one. */
  lemma SampleGoesBack(values: seq<uint64>, first: uint64, last: uint64, k: nat)
    requires first <= last && !Fits(first, last) && EndsAt(first, last, k) && IsSample(values, first, last, k)
    ensures !Spreads(values, first, last)
  {
    var steps := StepsToLast(first, last);
    EndsWhereItFits(first, last);
    assert k > steps by {
      if k < steps { NoWrapBefore(first, last, k); }
    }
    assert values[steps] == ValueAfter(first, last, steps) && values[steps - 1] == ValueAfter(first, last, steps - 1);
    assert !(values[steps - 1] < values[steps - 1 + 1]);
  }

  /** A loop still going after these turns goes on for more than 49, if the counter does
      not wrap. */
  lemma NotEndedYet(first: uint64, last: uint64, turns: nat)
    requires first <= last && forall j: nat :: j <= turns ==> ValueAfter(first, last, j) < last
    ensures Fits(first, last) ==> turns < 49
  {
    if Fits(first, last) {
      EndsWhereItFits(first, last);
      StepsReachLast(first, last);
      var steps := StepsToLast(first, last);
      assert turns < steps;
      IndexBound(steps - 1, Step(first, last), last - first);
    }
  }

  /** The loop, for as many turns as it is given. Its list, where it ends, spreads from
      first to last exactly when the counter does not wrap; and then 49 turns are
      enough. */
  method Sample(first: uint64, last: uint64, turns: nat) returns (r: Option<seq<uint64>>)
    ensures first > last ==> r == Some([])
    ensures first <= last ==> (r.Some? <==> exists k: nat :: k <= turns && EndsAt(first, last, k))
    ensures first <= last && r.Some? ==>
      exists k: nat :: k <= turns && EndsAt(first, last, k) && IsSample(r.value, first, last, k)
    ensures first <= last && r.Some? ==> (Spreads(r.value, first, last) <==> Fits(first, last))
    ensures first <= last && Fits(first, last) && turns >= 49 ==> r.Some? && |r.value| <= 50
  {
    if first > last { return Some([]); }
    var step := Step(first, last);
    var values: seq<uint64> := [];
    var value: uint64 := first;
    assert Mul(0, step) == 0;
    WrapFits(first);
    while value < last
      invariant |values| <= turns && value == ValueAfter(first, last, |values|)
      invariant forall i: nat :: i < |values| ==> values[i] == ValueAfter(first, last, i) < last
      decreases turns - |values|
    {
      if |values| == turns {
        NotEndedYet(first, last, turns);
        return None;
      }
      NextValue(first, last, |values|);
      values := values + [value];
      value := Wrap(value + step);
    }
    assert EndsAt(first, last, |values|);
    var list := values + [last];
    assert IsSample(list, first, last, |values|);
    if Fits(first, last) {
      SampleSpreads(list, first, last, |values|);
    } else {
      SampleGoesBack(list, first, last, |values|);
    }
    return Some(list);
  }

  // ---- When the loop ends at all ----

  /** The power of two in a number, and what is left. */
  function Twos(n: nat): nat
    requires n > 0
  {
    if n % 2 == 1 then 0 else 1 + Twos(n / 2)
  }

  function OddPart(n: nat): nat
    requires n > 0
  {
    if n % 2 == 1 then n else OddPart(n / 2)
  }

  lemma {:induction false} OddPartIsOdd(n: nat)
    requires n > 0
    ensures OddPart(n) % 2 == 1
    ensures n == Mul(Pow2(Twos(n)), OddPart(n))
  {
    if n % 2 == 0 {
      OddPartIsOdd(n / 2);
      assert Mul(2 * Pow2(Twos(n / 2)), OddPart(n / 2)) == 2 * Mul(Pow2(Twos(n / 2)), OddPart(n / 2));
    }
  }

  lemma {:induction false} Pow2Adds(a: nat, b: nat)
    ensures Mul(Pow2(a), Pow2(b)) == Pow2(a + b)
  {
    if a > 0 {
      Pow2Adds(a - 1, b);
      assert Mul(2 * Pow2(a - 1), Pow2(b)) == 2 * Mul(Pow2(a - 1), Pow2(b));
    }
  }

  /** An odd number has an inverse modulo every power of two. */
  lemma {:induction false} OddInverse(odd: nat, m: nat) returns (inverse: nat, carry: nat)
    requires odd % 2 == 1
    ensures Mul(odd, inverse) == 1 + Mul(carry, Pow2(m))
  {
    if m == 0 {
      inverse, carry := 1, odd - 1;
    } else {
      inverse, carry := OddInverse(odd, m - 1);
      var half := Pow2(m - 1);
      if carry % 2 == 0 {
        carry := carry / 2;
        assert Mul(carry, 2 * half) == Mul(2 * carry, half);
      } else {
        MulDistributes(odd, inverse, half);
        assert Mul(carry, half) + Mul(odd, half) == Mul(carry + odd, half);
        inverse, carry := inverse + half, (carry + odd) / 2;
        assert Mul(carry, 2 * half) == Mul(2 * carry, half);
      }
    }
  }

  /** The largest power of two that divides the step; its multiples split the uint64s. */
  function Grain(first: uint64, last: uint64): (g: nat)
    requires first <= last
    ensures g > 0
  {
    Pow2(Twos(Step(first, last)))
  }

  /** The greatest uint64 in the counter's residue class: the furthest it can ever get. */
  function Furthest(first: uint64, last: uint64): int
    requires first <= last
  {
    TWO64 - Grain(first, last) + first % Grain(first, last)
  }

  lemma Pow2Squares(a: nat, power: nat)
    requires Pow2(a) == power
    ensures Pow2(a + a) == power * power
  {
    Pow2Adds(a, a);
  }

  lemma Pow2OfWord()
    ensures Pow2(64) == TWO64
  {
    assert Pow2(8) == 0x100;
    Pow2Squares(8, 0x100);
    Pow2Squares(16, 0x1_0000);
    Pow2Squares(32, 0x1_0000_0000);
  }

  lemma WindowsTile(twos: nat, odd: nat) returns (m: nat)
    requires odd > 0 && Mul(Pow2(twos), odd) < TWO64
    ensures TWO64 == Mul(Pow2(twos), Pow2(m))
  {
    Pow2OfWord();
    assert Pow2(twos) < TWO64 by { MulMonotone(1, odd, Pow2(twos)); }
    if twos >= 64 {
      Pow2Monotone(64, twos);
      assert false;
    }
    m := 64 - twos;
    Pow2Adds(twos, m);
  }

  lemma GrainDivides(first: uint64, last: uint64) returns (odd: nat, m: nat)
    requires first <= last
    ensures odd % 2 == 1 && Step(first, last) == Mul(Grain(first, last), odd)
    ensures TWO64 == Mul(Grain(first, last), Pow2(m))
  {
    OddPartIsOdd(Step(first, last));
    odd := OddPart(Step(first, last));
    m := WindowsTile(Twos(Step(first, last)), odd);
  }

  lemma AddMultiple(n: nat, q: nat, g: nat)
    requires g > 0
    ensures (n + Mul(g, q)) % g == n % g
  {
    assert n == n / g * g + n % g;
    QuotientIs(n + Mul(g, q), n / g + q, n % g, g);
  }

  /** From any value, a number of grains leads to the last one of its residue. */
  lemma GrainsLeft(value: nat, g: nat, windows: nat) returns (grains: nat)
    requires g > 0 && value < Mul(g, windows)
    ensures value + Mul(grains, g) == Mul(g, windows) - g + value % g
  {
    var window := value / g;
    assert value == window * g + value % g;
    if window >= windows { MulMonotone(windows, window, g); }
    grains := windows - 1 - window;
    assert grains * g == windows * g - g - window * g;
  }

  lemma OneTurn(value: uint64, step: nat, g: nat, odd: nat, windows: nat)
    requires g > 0 && step == Mul(g, odd) < TWO64 == Mul(g, windows)
    ensures Wrap(value + step) % g == value % g
  {
    AddMultiple(value, odd, g);
    AddMultiple(Wrap(value + step), windows, g);
  }

  lemma {:induction false} KeepsResidue(first: uint64, last: uint64, k: nat)
    requires first <= last
    ensures ValueAfter(first, last, k) % Grain(first, last) == first % Grain(first, last)
  {
    if k == 0 {
      assert Mul(0, Step(first, last)) == 0;
      WrapFits(first);
    } else {
      KeepsResidue(first, last, k - 1);
      NextValue(first, last, k - 1);
      var odd, m := GrainDivides(first, last);
      OneTurn(ValueAfter(first, last, k - 1), Step(first, last), Grain(first, last), odd, Pow2(m));
    }
  }

  /** The counter keeps its residue, so it gets no further. */
  lemma NoFurther(first: uint64, last: uint64, k: nat)
    requires first <= last
    ensures ValueAfter(first, last, k) <= Furthest(first, last)
  {
    var odd, m := GrainDivides(first, last);
    KeepsResidue(first, last, k);
    var grains := GrainsLeft(ValueAfter(first, last, k), Grain(first, last), Pow2(m));
  }

  lemma WrapTurns(n: nat, value: uint64, turns: nat)
    requires n == value + Mul(turns, TWO64)
    ensures Wrap(n) == value
  {
    QuotientIs(n, turns, value, TWO64);
  }

  lemma TurnsTaken(g: nat, odd: nat, inverse: nat, grains: nat, carry: nat, windows: nat)
    requires Mul(odd, inverse) == 1 + Mul(carry, windows)
    ensures Mul(inverse * grains, Mul(g, odd)) == Mul(grains, g) + Mul(carry * grains, Mul(g, windows))
  {
    calc {
      Mul(inverse * grains, Mul(g, odd));
      Mul(odd, inverse) * (grains * g);
      (1 + Mul(carry, windows)) * (grains * g);
      grains * g + Mul(carry, windows) * (grains * g);
      grains * g + Mul(carry * grains, Mul(g, windows));
    }
  }

  /** And it gets that far, some time. */
  lemma GetsThere(first: uint64, last: uint64) returns (k: nat)
    requires first <= last
    ensures ValueAfter(first, last, k) == Furthest(first, last)
  {
    var odd, m := GrainDivides(first, last);
    var inverse, carry := OddInverse(odd, m);
    var grains := GrainsLeft(first, Grain(first, last), Pow2(m));
    k := inverse * grains;
    TurnsTaken(Grain(first, last), odd, inverse, grains, carry, Pow2(m));
    WrapTurns(first + Mul(k, Step(first, last)), Furthest(first, last), carry * grains);
  }

  lemma {:induction false} EndsBy(first: uint64, last: uint64, k: nat) returns (turns: nat)
    requires first <= last && ValueAfter(first, last, k) >= last
    ensures EndsAt(first, last, turns)
  {
    if j: nat :| j < k && ValueAfter(first, last, j) >= last {
      turns := EndsBy(first, last, j);
    } else {
      turns := k;
    }
  }

  /** Given turns enough, the loop ends exactly when the last value is not past the
      furthest the counter gets. */
  lemma EverEndsIff(first: uint64, last: uint64)
    requires first <= last
    ensures (exists k: nat :: EndsAt(first, last, k)) <==> last <= Furthest(first, last)
  {
    if last <= Furthest(first, last) {
      var k := GetsThere(first, last);
      var turns := EndsBy(first, last, k);
    }
    forall k: nat | EndsAt(first, last, k)
      ensures last <= Furthest(first, last)
    {
      NoFurther(first, last, k);
    }
  }

  /** Over the whole range of uint64 it never does: the counter stays even, and the last
      value is odd. */
  lemma FullRangeNeverEnds(k: nat)
    ensures !EndsAt(0, TWO64 - 1, k)
  {
    assert Step(0, TWO64 - 1) == 737869762948382064;
    assert Grain(0, TWO64 - 1) >= 2;
    EverEndsIff(0, TWO64 - 1);
  }
}
