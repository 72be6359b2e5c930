/** Fixed-width integers and the arithmetic facts the rest of the project shares. */
module Machine {
  const I64_MIN: int := -0x8000_0000_0000_0000
  const I64_MAX: int := 0x7FFF_FFFF_FFFF_FFFF
  const U64_MAX: int := 0xFFFF_FFFF_FFFF_FFFF
  const I128_LIMIT: int := 0x8000_0000_0000_0000_0000_0000_0000_0000

  type i64 = x: int | I64_MIN <= x <= I64_MAX
  type u64 = x: int | 0 <= x <= U64_MAX
  type u32 = x: int | 0 <= x <= 0xFFFF_FFFF

  type RowId = u64

  datatype Option<+T> = None | Some(value: T)

  datatype Result<+T, +E> = Ok(value: T) | Err(error: E) {
    predicate IsFailure() { Err? }

    function PropagateFailure<U>(): Result<U, E>
      requires Err?
    {
      Err(error)
    }

    function Extract(): T
      requires Ok?
    {
      value
    }
  }

  datatype Ordering = Less | Equal | Greater

  predicate FitsI64(x: int) {
    I64_MIN <= x <= I64_MAX
  }

  predicate FitsI128(x: int) {
    -I128_LIMIT <= x < I128_LIMIT
  }

  function Abs(x: int): nat {
    if x < 0 then -x else x
  }

  function CompareInt(a: int, b: int): Ordering {
    if a < b then Less else if a > b then Greater else Equal
  }

  /** Integer division that truncates toward zero. */
  function TruncDiv(a: int, b: int): int
    requires b != 0
  {
    if a >= 0 then
      if b > 0 then a / b else -(a / -b)
    else
      if b > 0 then -(-a / b) else -a / -b
  }

  /** The remainder that goes with TruncDiv: it has the sign of the dividend. */
  function TruncRem(a: int, b: int): int
    requires b != 0
  {
    a - b * TruncDiv(a, b)
  }

  function Pow10(n: nat): nat {
    if n == 0 then 1 else 10 * Pow10(n - 1)
  }

  lemma {:induction false} Pow10Positive(n: nat)
    ensures Pow10(n) >= 1
  {
    if n > 0 {
      Pow10Positive(n - 1);
    }
  }

  lemma {:induction false} Pow10Sum(m: nat, n: nat)
    ensures Pow10(m + n) == Pow10(m) * Pow10(n)
  {
    if m > 0 {
      Pow10Sum(m - 1, n);
      MulAssoc(10, Pow10(m - 1), Pow10(n));
    }
  }

  lemma {:induction false} Pow10Monotone(m: nat, n: nat)
    requires m <= n
    ensures Pow10(m) <= Pow10(n)
  {
    if m < n {
      Pow10Monotone(m, n - 1);
    }
  }

  /** The powers of ten at the edges of i64 and i128. */
  lemma Pow10Values()
    ensures Pow10(18) == 1_000_000_000_000_000_000
    ensures Pow10(19) == 10_000_000_000_000_000_000
    ensures Pow10(38) == 100_000_000_000_000_000_000_000_000_000_000_000_000
    ensures Pow10(39) == 1_000_000_000_000_000_000_000_000_000_000_000_000_000
  {
    assert Pow10(3) == 1000;
    Pow10Sum(3, 3);
    Pow10Sum(6, 6);
    Pow10Sum(12, 6);
    Pow10Sum(18, 1);
    assert Pow10(1) == 10;
    Pow10Sum(19, 19);
    Pow10Sum(38, 1);
  }

  function Sum(xs: seq<int>): int {
    if xs == [] then 0 else xs[0] + Sum(xs[1..])
  }

  lemma {:induction false} SumOfLast(xs: seq<int>, x: int)
    ensures Sum(xs + [x]) == Sum(xs) + x
  {
    if xs == [] {
      assert [x][1..] == [] && xs + [x] == [x];
    } else {
      assert (xs + [x])[1..] == xs[1..] + [x];
      SumOfLast(xs[1..], x);
    }
  }

  /** A sequence without one of its elements. */
  lemma WithoutOne<T>(xs: seq<T>, i: nat)
    requires i < |xs|
    ensures xs == xs[..i] + [xs[i]] + xs[i + 1..]
    ensures multiset(xs[..i] + xs[i + 1..]) == multiset(xs) - multiset{xs[i]}
  {
    var front, back := xs[..i], xs[i + 1..];
    assert xs == front + ([xs[i]] + back);
    assert multiset(xs) == multiset(front) + multiset([xs[i]] + back);
    assert multiset([xs[i]] + back) == multiset{xs[i]} + multiset(back);
    assert multiset(front + back) == multiset(front) + multiset(back);
  }

  // Small steps of nonlinear arithmetic. Proofs elsewhere chain these instead of multiplying in place.

  lemma Distribute(x: int, y: int, f: int)
    ensures (x + y) * f == x * f + y * f
  {
  }

  lemma MulOrder(x: int, y: int, c: int)
    requires x <= y && c >= 0
    ensures x * c <= y * c
  {
  }

  lemma MulSwap(x: int, a: int, b: int)
    ensures (x * a) * b == (x * b) * a
  {
  }

  lemma MulAssoc(x: int, a: int, b: int)
    ensures (x * a) * b == x * (a * b)
  {
  }

  /** Multiplying by a positive number neither changes an order nor an equality. */
  lemma MulCancel(x: int, y: int, c: int)
    requires c > 0
    ensures x < y <==> x * c < y * c
    ensures x == y <==> x * c == y * c
  {
    if x < y {
      MulOrder(x + 1, y, c);
      Distribute(x, 1, c);
    } else if y < x {
      MulOrder(y + 1, x, c);
      Distribute(y, 1, c);
    }
  }

  /** Truncating division leaves a remainder smaller than the divisor, on the dividend's side of zero. */
  lemma TruncDivBounds(a: int, b: int)
    requires b > 0
    ensures Abs(TruncRem(a, b)) < b
    ensures a >= 0 ==> TruncRem(a, b) >= 0 && TruncDiv(a, b) >= 0
    ensures a <= 0 ==> TruncRem(a, b) <= 0 && TruncDiv(a, b) <= 0
    ensures Abs(TruncDiv(a, b)) <= Abs(a)
  {
    if a >= 0 {
      assert a == b * (a / b) + a % b;
      DivShrinks(a, b);
    } else {
      assert -a == b * (-a / b) + (-a) % b;
      assert b * -(-a / b) == -(b * (-a / b));
      DivShrinks(-a, b);
    }
  }

  lemma DivShrinks(a: nat, b: int)
    requires b > 0
    ensures 0 <= a / b <= a
  {
    MulOrder(1, b, a / b);
  }
}
