/** Go's fixed-width integers: uint64 wraps modulo 2^64, and int64 is the
    two's-complement reading of the same 64 bits. */
module MachineInts {
  const TWO32 := 0x1_0000_0000
  const TWO63 := 0x8000_0000_0000_0000
  const TWO64 := 0x1_0000_0000_0000_0000

  type uint64 = n: int | 0 <= n < TWO64
  type int64 = n: int | -TWO63 <= n < TWO63

  function Wrap(n: int): uint64 {
    n % TWO64
  }

  function ToInt64(n: int): (r: int64)
    ensures (r - n) % TWO64 == 0
  {
    (n + TWO63) % TWO64 - TWO63
  }

  lemma MultiplesAdd(a: int, b: int)
    requires a % TWO64 == 0 && b % TWO64 == 0
    ensures (a + b) % TWO64 == 0 && (a - b) % TWO64 == 0
  {}

  predicate IsMultiple(n: int) {
    n % TWO64 == 0
  }

  lemma SumIsMultiple(n: int, a: int, b: int)
    requires IsMultiple(a) && IsMultiple(b) && (n == a + b || n == a - b)
    ensures IsMultiple(n)
  {
    MultiplesAdd(a, b);
  }

  lemma WrapResidue(n: int)
    ensures IsMultiple(n - Wrap(n))
  {}

  lemma WrapAdds(a: nat, b: nat)
    ensures Wrap(Wrap(a) + b) == Wrap(a + b)
  {}

  lemma WrapFits(n: nat)
    requires n < TWO64
    ensures Wrap(n) == n
  {}

  /** A counter that starts at first, after so many turns. */
  function Counter(first: uint64, turns: nat): uint64 {
    Wrap(first + turns)
  }

  lemma CounterStep(first: uint64, turns: nat)
    ensures Counter(first, turns + 1) == Wrap(Counter(first, turns) + 1)
  {
    WrapAdds(first + turns, 1);
  }

  /** How many turns take it to a value. */
  function TurnsTo(first: uint64, value: uint64): (turns: nat)
    ensures turns < TWO64 && Counter(first, turns) == value
  {
    if first <= value then value - first else value + TWO64 - first
  }

  lemma TurnsAtMost(first: uint64, turns: nat)
    ensures TurnsTo(first, Counter(first, turns)) <= turns
  {
    if turns < TWO64 && first + turns < TWO64 {
      WrapFits(first + turns);
    }
  }

  /** An int64 is decided by its residue modulo 2^64. */
  lemma ResidueDecides(n: int, r: int64)
    requires (r - n) % TWO64 == 0
    ensures ToInt64(n) == r
  {
    MultiplesAdd(ToInt64(n) - n, r - n);
    var d := ToInt64(n) - r;
    assert d == (ToInt64(n) - n) - (r - n);
    assert d % TWO64 == 0 && -TWO64 < d < TWO64;
  }

  /** Wrapping at every step of a sum is the same as wrapping once at the end. */
  lemma ToInt64Sum(a: int, b: int)
    ensures ToInt64(ToInt64(a) + b) == ToInt64(a + b)
    ensures ToInt64(a + ToInt64(b)) == ToInt64(a + b)
    ensures ToInt64(ToInt64(a) - ToInt64(b)) == ToInt64(a - b)
  {
    var ra, rb := ToInt64(a) - a, ToInt64(b) - b;
    var s, d := ToInt64(a + b), ToInt64(a - b);
    MultiplesAdd(s - (a + b), ra);
    assert s - (ToInt64(a) + b) == (s - (a + b)) - ra;
    ResidueDecides(ToInt64(a) + b, s);
    MultiplesAdd(s - (a + b), rb);
    assert s - (a + ToInt64(b)) == (s - (a + b)) - rb;
    ResidueDecides(a + ToInt64(b), s);
    MultiplesAdd(ra, rb);
    MultiplesAdd(d - (a - b), ra - rb);
    assert d - (ToInt64(a) - ToInt64(b)) == (d - (a - b)) - (ra - rb);
    ResidueDecides(ToInt64(a) - ToInt64(b), d);
  }

  lemma ToInt64Adds(a: int, b: int)
    ensures ToInt64(ToInt64(a) + ToInt64(b)) == ToInt64(a + b)
  {
    ToInt64Sum(a, ToInt64(b));
    ToInt64Sum(a, b);
  }

  /** The value of an int64 sum decides its true sum up to a multiple of 2^64. */
  lemma SameInt64(a: int, b: int)
    ensures ToInt64(a) == ToInt64(b) <==> IsMultiple(a - b)
  {
    var ra, rb := ToInt64(a) - a, ToInt64(b) - b;
    MultiplesAdd(ra, rb);
    if ToInt64(a) == ToInt64(b) {
      assert a - b == -(ra - rb);
    }
    if (a - b) % TWO64 == 0 {
      MultiplesAdd(rb, a - b);
      assert ToInt64(b) - a == rb - (a - b);
      ResidueDecides(a, ToInt64(b));
    }
  }

  lemma IsqrtStep(n: nat, half: nat)
    requires half * half <= n / 4 < (half + 1) * (half + 1)
    ensures (2 * half) * (2 * half) <= n < (2 * half + 2) * (2 * half + 2)
  {
    assert (2 * half) * (2 * half) == 4 * (half * half);
    assert (2 * half + 2) * (2 * half + 2) == 4 * ((half + 1) * (half + 1));
  }

  /** Integer square root, as big.Int.Sqrt computes it. */
  function Isqrt(n: nat): (r: nat)
    ensures r * r <= n < (r + 1) * (r + 1)
    ensures r > 0 <==> n > 0
  {
    if n == 0 then 0
    else
      var half := Isqrt(n / 4);
      IsqrtStep(n, half);
      if (2 * half + 1) * (2 * half + 1) <= n then 2 * half + 1 else 2 * half
  }

  lemma SquareMonotone(a: nat, b: nat)
    requires a <= b
    ensures a * a <= b * b
  {
    assert b * b == a * a + (b - a) * (b + a);
  }

  lemma RootOrder(a: nat, b: nat)
    requires a * a < (b + 1) * (b + 1)
    ensures a <= b
  {
    if b + 1 <= a {
      SquareMonotone(b + 1, a);
    }
  }

  lemma IsqrtMonotone(m: nat, n: nat)
    requires m <= n
    ensures Isqrt(m) <= Isqrt(n)
  {
    RootOrder(Isqrt(m), Isqrt(n));
  }

  lemma IsqrtBound(n: uint64)
    ensures Isqrt(n) < TWO32
  {
    assert TWO64 == TWO32 * TWO32;
    RootOrder(Isqrt(n), TWO32 - 1);
  }

  lemma IsqrtUnique(n: nat, r: nat)
    requires r * r <= n < (r + 1) * (r + 1)
    ensures Isqrt(n) == r
  {
    RootOrder(Isqrt(n), r);
    RootOrder(r, Isqrt(n));
  }
}
