// Numbers as serde_json keeps them, and their rounding to 64-bit floats.
module Doubles {
  import opened Laws

  const TWO_TO_53: nat := 0x20_0000_0000_0000

  function Rounded(k: nat, unit: nat): nat
    requires unit > 0
    decreases k / unit
  {
    if k / unit < TWO_TO_53 then RoundedTo(k, unit)
    else
      Halves(k, unit);
      Rounded(k, 2 * unit)
  }

  // The nearest multiple of the unit, the even one on a tie.
  function RoundedTo(k: nat, unit: nat): nat
    requires unit > 0
  {
    var below := k / unit * unit;
    var rest := k % unit;
    if 2 * rest < unit || (2 * rest == unit && k / unit % 2 == 0) then below else below + unit
  }

  lemma Halves(k: nat, unit: nat)
    requires 0 < unit <= k
    ensures k / (2 * unit) < k / unit
  {
    var q := k / unit;
    assert k < unit * (q + 1) by { assert k == unit * q + k % unit; }
    var h := k / (2 * unit);
    assert k == 2 * unit * h + k % (2 * unit);
    if h >= q {
      assert 2 * unit * h >= 2 * unit * q by { Scales(2 * unit, q, h); }
      assert unit * q >= unit by { Scales(unit, 1, q); }
    }
  }

  lemma QuotientsAreOrdered(k: nat, m: nat, unit: nat)
    requires unit > 0 && k <= m
    ensures k / unit <= m / unit
    ensures k / unit < m / unit ==> (k / unit + 1) * unit <= m / unit * unit
    ensures k / unit == m / unit ==> k % unit <= m % unit
  {
    assert k == k / unit * unit + k % unit && m == m / unit * unit + m % unit;
    if k / unit > m / unit {
      Scales(unit, m / unit + 1, k / unit);
    } else if k / unit < m / unit {
      Scales(unit, k / unit + 1, m / unit);
    }
  }

  lemma RoundingToKeepsOrder(k: nat, m: nat, unit: nat)
    requires unit > 0 && k <= m
    ensures RoundedTo(k, unit) <= RoundedTo(m, unit)
  {
    QuotientsAreOrdered(k, m, unit);
    assert (k / unit + 1) * unit == k / unit * unit + unit;
  }

  // Past its 2^53 units a number is rounded to at least that much.
  lemma {:induction false} RoundedIsLarge(m: nat, unit: nat)
    requires unit > 0 && m / unit >= TWO_TO_53
    ensures Rounded(m, unit) >= TWO_TO_53 * unit
    decreases m / unit
  {
    Halves(m, unit);
    var half := TWO_TO_53 / 2;
    assert half * (2 * unit) == TWO_TO_53 * unit;
    assert m >= TWO_TO_53 * unit by {
      Scales(unit, TWO_TO_53, m / unit);
    }
    if m / (2 * unit) < TWO_TO_53 {
      RoundingToKeepsOrder(half * (2 * unit), m, 2 * unit);
      Multiple(half, 2 * unit);
    } else {
      RoundedIsLarge(m, 2 * unit);
    }
  }

  lemma RoundedIsSmall(k: nat, unit: nat)
    requires unit > 0 && k / unit < TWO_TO_53
    ensures Rounded(k, unit) <= TWO_TO_53 * unit
  {
    Scales(unit, k / unit + 1, TWO_TO_53);
    assert (k / unit + 1) * unit == k / unit * unit + unit;
  }

  lemma Multiple(q: nat, unit: nat)
    requires unit > 0
    ensures RoundedTo(q * unit, unit) == q * unit
  {
    DivisionIsUnique(q * unit, unit, q, 0);
  }

  lemma {:induction false} RoundingKeepsOrder(k: nat, m: nat, unit: nat)
    requires unit > 0 && k <= m
    ensures Rounded(k, unit) <= Rounded(m, unit)
    decreases m / unit
  {
    QuotientsAreOrdered(k, m, unit);
    if m / unit < TWO_TO_53 {
      RoundingToKeepsOrder(k, m, unit);
    } else if k / unit < TWO_TO_53 {
      RoundedIsLarge(m, unit);
      RoundedIsSmall(k, unit);
    } else {
      Halves(m, unit);
      RoundingKeepsOrder(k, m, 2 * unit);
    }
  }

  // ---------------------------------------------------------------- the nearest float

  function PowerOfTwo(j: nat): (p: nat)
    ensures p > 0
  {
    if j == 0 then 1 else 2 * PowerOfTwo(j - 1)
  }

  function Distance(a: nat, b: nat): nat {
    if a <= b then b - a else a - b
  }

  // The q-th multiple of the unit is nearest to k; of two that are as near, it is the even one.
  predicate IsNearest(q: nat, unit: nat, k: nat) {
    2 * Distance(q * unit, k) <= unit && (2 * Distance(q * unit, k) == unit ==> q % 2 == 0)
  }

  lemma RoundedToIsNearest(k: nat, unit: nat) returns (q: nat)
    requires unit > 0
    ensures RoundedTo(k, unit) == q * unit && IsNearest(q, unit, k) && k / unit <= q <= k / unit + 1
  {
    var below := k / unit;
    assert k == below * unit + k % unit;
    assert (below + 1) * unit == below * unit + unit;
    q := if RoundedTo(k, unit) == below * unit then below else below + 1;
  }

  lemma HalfAsMany(k: nat, unit: nat)
    requires unit > 0 && k / unit >= TWO_TO_53
    ensures k / (2 * unit) >= TWO_TO_53 / 2
  {
    var half := TWO_TO_53 / 2;
    Scales(unit, TWO_TO_53, k / unit);
    assert half * (2 * unit) == unit * TWO_TO_53 <= k;
    QuotientsAreOrdered(half * (2 * unit), k, 2 * unit);
    DivisionIsUnique(half * (2 * unit), 2 * unit, half, 0);
  }

  /** Rounding an integer yields a float of 53 significant bits that is nearest to it, the even one on a tie: a multiple
      q of a power of two u, where q has 53 bits unless u is 1. */
  lemma {:induction false} RoundedIsNearest(k: nat, unit: nat, start: nat) returns (j: nat, q: nat)
    requires unit == PowerOfTwo(start) && (unit == 1 || k / unit >= TWO_TO_53 / 2)
    ensures Rounded(k, unit) == q * PowerOfTwo(j) && IsNearest(q, PowerOfTwo(j), k)
    ensures q <= TWO_TO_53 && (PowerOfTwo(j) == 1 || q >= TWO_TO_53 / 2)
    decreases k / unit
  {
    if k / unit < TWO_TO_53 {
      j := start;
      q := RoundedToIsNearest(k, unit);
    } else {
      Halves(k, unit);
      HalfAsMany(k, unit);
      j, q := RoundedIsNearest(k, 2 * unit, start + 1);
    }
  }

  // ---------------------------------------------------------------- floats

  function Magnitude(r: real): (a: real)
    ensures a >= 0.0
  {
    if r < 0.0 then -r else r
  }

  // What is used of a finite 64-bit float: a whole one is not changed by rounding,
  // and from 2^53 on all of them are whole.
  predicate IsDouble(r: real) {
    var a := Magnitude(r);
    if a == a.Floor as real then Rounded(a.Floor, 1) == a.Floor else a < TWO_TO_53 as real
  }

  type Double = r: real | IsDouble(r) witness 0.0

  // Unsigned, negative, or a finite float.
  datatype Number = PosInt(n: nat) | NegInt(z: int) | Float(r: Double)

  function ValueOf(n: Number): real {
    match n
    case PosInt(k) => k as real
    case NegInt(z) => z as real
    case Float(r) => r
  }

  // The nearest float: integers are rounded to 53 significant bits, ties to even.
  function AsDouble(n: Number): real {
    match n
    case PosInt(k) => RoundedInt(k) as real
    case NegInt(z) => RoundedInt(z) as real
    case Float(r) => r
  }

  function RoundedInt(z: int): int {
    if z < 0 then -(Rounded(-z, 1) as int) else Rounded(z, 1)
  }

  // Not changed by rounding.
  predicate IsExact(n: Number) {
    match n
    case PosInt(k) => k < TWO_TO_53
    case NegInt(z) => -(TWO_TO_53 as int) < z < TWO_TO_53
    case Float(_) => true
  }

  // ---------------------------------------------------------------- rounding keeps order

  lemma SmallIsExact(k: nat)
    requires k <= TWO_TO_53
    ensures Rounded(k, 1) == k
  {
    if k == TWO_TO_53 {
      AroundTwoTo53();
    }
  }

  lemma AroundTwoTo53()
    ensures Rounded(TWO_TO_53, 1) == TWO_TO_53 && Rounded(TWO_TO_53 + 1, 1) == TWO_TO_53
  {
    assert (TWO_TO_53 + 1) / 2 == 0x10_0000_0000_0000 == TWO_TO_53 / 2;
    assert Rounded(TWO_TO_53 + 1, 1) == Rounded(TWO_TO_53 + 1, 2) == TWO_TO_53;
    assert Rounded(TWO_TO_53, 1) == Rounded(TWO_TO_53, 2) == TWO_TO_53;
  }

  // An integer at most a float is rounded to at most that float, and the other
  // way round.
  lemma RoundedBelow(k: nat, r: real)
    requires IsDouble(r) && k as real <= r
    ensures Rounded(k, 1) as real <= r
  {
    if r == r.Floor as real {
      RoundingKeepsOrder(k, r.Floor, 1);
    } else {
      SmallIsExact(k);
    }
  }

  lemma RoundedAbove(k: nat, r: real)
    requires IsDouble(r) && 0.0 <= r <= k as real
    ensures r <= Rounded(k, 1) as real
  {
    if r == r.Floor as real {
      RoundingKeepsOrder(r.Floor, k, 1);
    } else if k <= TWO_TO_53 {
      SmallIsExact(k);
    } else {
      SmallIsExact(TWO_TO_53);
      RoundingKeepsOrder(TWO_TO_53, k, 1);
    }
  }

  lemma IntegersKeepOrder(a: int, b: int)
    requires a <= b
    ensures RoundedInt(a) <= RoundedInt(b)
  {
    if a >= 0 {
      RoundingKeepsOrder(a, b, 1);
    } else if b < 0 {
      RoundingKeepsOrder(-b, -a, 1);
    }
  }

  lemma IntegerBelowFloat(z: int, r: real)
    requires IsDouble(r) && z as real <= r
    ensures RoundedInt(z) as real <= r
  {
    if z >= 0 {
      RoundedBelow(z, r);
    } else if r < 0.0 {
      RoundedAbove(-z, -r);
    }
  }

  lemma FloatBelowInteger(r: real, z: int)
    requires IsDouble(r) && r <= z as real
    ensures r <= RoundedInt(z) as real
  {
    if z < 0 {
      RoundedBelow(-z, -r);
    } else if r >= 0.0 {
      RoundedAbove(z, r);
    }
  }

  // Rounding never reverses two numbers, whatever their kinds and signs.
  lemma RoundingKeepsNumberOrder(low: Number, high: Number)
    requires ValueOf(low) <= ValueOf(high)
    ensures AsDouble(low) <= AsDouble(high)
  {
    match (low, high)
    case (Float(_), Float(_)) =>
    case (Float(r), _) => FloatBelowInteger(r, IntegerOf(high));
    case (_, Float(r)) => IntegerBelowFloat(IntegerOf(low), r);
    case _ => IntegersKeepOrder(IntegerOf(low), IntegerOf(high));
  }

  function IntegerOf(n: Number): (z: int)
    requires !n.Float?
    ensures ValueOf(n) == z as real && AsDouble(n) == RoundedInt(z) as real
  {
    match n
    case PosInt(k) => k
    case NegInt(z) => z
  }
}
