/** Numerals in a base: digit sequences, the most significant digit first. */
module Numerals {

  type Base = b: int | 2 <= b <= 16 witness 10

  function Pow(b: Base, k: nat): (p: nat)
    ensures p >= 1
  {
    if k == 0 then 1 else MulPositive(b, Pow(b, k - 1)); b * Pow(b, k - 1)
  }

  lemma MulPositive(a: int, b: int)
    requires a >= 1 && b >= 1
    ensures a * b >= 1
  {
  }

  /** What a digit sequence denotes. */
  function Value(digits: seq<nat>, b: Base): int {
    if digits == [] then 0 else Value(digits[..|digits| - 1], b) * b + digits[|digits| - 1]
  }

  ghost predicate IsNumeral(digits: seq<nat>, b: Base) {
    && digits != []
    && (forall i :: 0 <= i < |digits| ==> digits[i] < b)
    && (|digits| > 1 ==> digits[0] != 0)
  }

  /** The low `k` digits of `v`. */
  function Low(v: nat, k: nat, b: Base): (d: seq<nat>)
    ensures |d| == k
  {
    if k == 0 then [] else Low(v / b, k - 1, b) + [v % b]
  }

  function Numeral(v: nat, b: Base): seq<nat> {
    if v < b then [v] else Numeral(v / b, b) + [v % b]
  }

  /** A numeral denotes its value, with no superfluous leading digit. */
  lemma {:induction false} NumeralValue(v: nat, b: Base)
    ensures IsNumeral(Numeral(v, b), b) && Value(Numeral(v, b), b) == v
    ensures Numeral(v, b)[0] == 0 ==> v == 0
  {
    if v < b {
      assert Value([v], b) == Value([], b) * b + v;
    } else {
      NumeralValue(v / b, b);
      var d := Numeral(v / b, b) + [v % b];
      assert d[..|d| - 1] == Numeral(v / b, b);
      DivMod(v, b);
    }
  }

  lemma DivMod(v: nat, b: Base)
    ensures v / b * b + v % b == v && v % b < b && (v >= b ==> v / b > 0)
  {
  }

  /** Any such digit sequence is the numeral of what it denotes. */
  lemma {:induction false} NumeralUnique(digits: seq<nat>, b: Base)
    requires IsNumeral(digits, b)
    ensures Value(digits, b) >= 0 && digits == Numeral(Value(digits, b), b)
    ensures Value(digits, b) == 0 ==> digits == [0]
    decreases |digits|
  {
    hide Numeral, Value;
    var n := |digits| - 1;
    ValueStep(digits, b);
    if n == 0 {
      ValueOfNone(digits[..0], b);
      NumeralStep(digits[0], b);
    } else {
      var front := digits[..n];
      NumeralUnique(front, b);
      Split(Value(front, b), digits[n], b);
      NumeralStep(Value(digits, b), b);
      assert digits == front + [digits[n]];
    }
  }

  lemma ValueStep(digits: seq<nat>, b: Base)
    requires digits != []
    ensures Value(digits, b) == Value(digits[..|digits| - 1], b) * b + digits[|digits| - 1]
  {
  }

  lemma ValueOfNone(digits: seq<nat>, b: Base)
    requires digits == []
    ensures Value(digits, b) == 0 && 0 * b == 0
  {
  }

  lemma Split(q: nat, r: nat, b: Base)
    requires r < b
    ensures (q * b + r) / b == q && (q * b + r) % b == r && q * b >= 0 && (q > 0 ==> q * b + r >= b)
  {
    DivUnique(q * b + r, b, q, r);
  }

  lemma DivUnique(v: int, p: int, q: int, r: int)
    requires p > 0 && v == q * p + r && 0 <= r < p
    ensures v / p == q && v % p == r
  {
    DivModAny(v, p);
    SameParts(p, v / p, v % p, q, r);
  }

  lemma DivModAny(v: int, p: int)
    requires p > 0
    ensures v == v / p * p + v % p && 0 <= v % p < p
  {
  }

  lemma SameParts(p: int, d: int, m: int, q: int, r: int)
    requires 0 <= m < p && 0 <= r < p && d * p + m == q * p + r
    ensures d == q && m == r
  {
    assert (d - q) * p == d * p - q * p;
    assert (q - d) * p == q * p - d * p;
    if d > q {
      TimesBound(d - q, p);
    } else if d < q {
      TimesBound(q - d, p);
    }
  }

  lemma TimesBound(e: int, p: int)
    requires e >= 1 && p >= 0
    ensures e * p >= p
  {
  }

  lemma DivDiv(v: nat, p: nat, b: Base)
    requires p > 0
    ensures b * p > 0 && v / p / b == v / (b * p)
  {
    MulPositive(b, p);
    DivModAny(v, p);
    DivModAny(v / p, b);
    Regroup(v, p, b, v / p, v % p, v / p / b, v / p % b);
    DivUnique(v, b * p, v / p / b, v / p % b * p + v % p);
  }

  lemma Regroup(v: int, p: int, b: int, q: int, r: int, s: int, t: int)
    requires v == q * p + r && q == s * b + t && 0 <= r < p && 0 <= t < b
    ensures v == s * (b * p) + (t * p + r) && 0 <= t * p + r < b * p
  {
    assert (s * b + t) * p == s * (b * p) + t * p;
    TimesBound(b - t, p);
    assert (b - t) * p == b * p - t * p;
    assert t * p >= 0;
  }

  /** Taking the high digit off: how the printing loop goes down. */
  lemma {:induction false} LowSplit(v: nat, k: nat, b: Base)
    requires v < Pow(b, k + 1)
    ensures v / Pow(b, k) < b && Low(v, k + 1, b) == [v / Pow(b, k)] + Low(v % Pow(b, k), k, b)
  {
    hide Pow, Low;
    if k == 0 {
      OneDigit(v, b);
    } else {
      BelowPow(v, k, b);
      LowSplit(v / b, k - 1, b);
      HighDigit(v, k - 1, b);
    }
  }

  lemma OneDigit(v: nat, b: Base)
    requires v < Pow(b, 1)
    ensures v / Pow(b, 0) < b && Low(v, 1, b) == [v / Pow(b, 0)] + Low(v % Pow(b, 0), 0, b)
  {
    hide Pow, Low;
    PowOne(b);
    DivUnique(v, 1, v, 0);
    DivUnique(v, b, 0, v);
    LowStep(v, 0, b);
    LowStep(0, 0, b);
    LowOfNone(v / b, b);
  }

  lemma PowOne(b: Base)
    ensures Pow(b, 0) == 1 && Pow(b, 1) == b
  {
  }

  lemma LowOfNone(v: nat, b: Base)
    ensures Low(v, 0, b) == []
  {
  }

  lemma HighDigit(v: nat, k: nat, b: Base)
    requires Low(v / b, k + 1, b) == [v / b / Pow(b, k)] + Low(v / b % Pow(b, k), k, b)
    ensures v / Pow(b, k + 1) == v / b / Pow(b, k)
    ensures Low(v, k + 2, b) == [v / Pow(b, k + 1)] + Low(v % Pow(b, k + 1), k + 1, b)
  {
    hide Pow, Low;
    LowStep(v, k + 1, b);
    PowStep(b, k);
    Parts(v, Pow(b, k), b);
    LowStep(v % Pow(b, k + 1), k, b);
    Shift(v / Pow(b, k + 1), Low(v / b % Pow(b, k), k, b), v % b);
  }

  lemma Shift(d: nat, low: seq<nat>, e: nat)
    ensures ([d] + low) + [e] == [d] + (low + [e])
  {
  }

  lemma LowStep(v: nat, k: nat, b: Base)
    ensures Low(v, 0, b) == [] && Low(v, k + 1, b) == Low(v / b, k, b) + [v % b]
  {
  }

  lemma PowStep(b: Base, k: nat)
    ensures Pow(b, 0) == 1 && Pow(b, k + 1) == b * Pow(b, k)
  {
  }

  lemma BelowPow(v: nat, k: nat, b: Base)
    ensures v < Pow(b, k + 1) <==> v / b < Pow(b, k)
  {
    hide Pow;
    PowStep(b, k);
    DivModAny(v, b);
    BelowTimes(v, v / b, v % b, b, Pow(b, k));
  }

  lemma BelowTimes(v: int, q: int, r: int, b: int, p: int)
    requires v == q * b + r && 0 <= r < b && p >= 1
    ensures v < b * p <==> q < p
  {
    if q < p {
      TimesBound(p - q, b);
      assert (p - q) * b == b * p - q * b;
    } else {
      assert (q - p) * b >= 0;
      assert (q - p) * b == q * b - b * p;
    }
  }

  lemma Parts(v: nat, p: nat, b: Base)
    requires p > 0
    ensures b * p > 0 && v / (b * p) == v / b / p && v % (b * p) / b == v / b % p && v % (b * p) % b == v % b
  {
    var u, t := v / b, v % b;
    MulPositive(b, p);
    DivModAny(v, b);
    DivModAny(u, p);
    Regroup(v, b, p, u, t, u / p, u % p);
    assert p * b == b * p;
    DivUnique(v, b * p, u / p, u % p * b + t);
    DivUnique(u % p * b + t, b, u % p, t);
  }

  lemma {:induction false} NumeralIsLow(v: nat, k: nat, b: Base)
    requires v < Pow(b, k + 1) && (k > 0 ==> Pow(b, k) <= v)
    ensures Numeral(v, b) == Low(v, k + 1, b)
  {
    hide Pow, Low, Numeral;
    NumeralStep(v, b);
    LowStep(v, k, b);
    if k == 0 {
      PowOne(b);
      LowOfNone(v / b, b);
      DivUnique(v, b, 0, v);
    } else {
      BelowPow(v, k, b);
      BelowPow(v, k - 1, b);
      AtLeastBase(b, k - 1);
      NumeralIsLow(v / b, k - 1, b);
    }
  }

  lemma NumeralStep(v: nat, b: Base)
    ensures Numeral(v, b) == if v < b then [v] else Numeral(v / b, b) + [v % b]
  {
  }

  lemma AtLeastBase(b: Base, k: nat)
    ensures Pow(b, k + 1) >= b
  {
    hide Pow;
    PowStep(b, k);
    TimesBound(Pow(b, k), b);
    Commutes(b, Pow(b, k));
  }

  lemma Commutes(a: int, b: int)
    ensures a * b == b * a
  {
  }

  lemma {:induction false} LowDigit(v: nat, k: nat, b: Base, i: nat)
    requires i < k
    ensures Low(v, k, b)[i] == v / Pow(b, k - 1 - i) % b
  {
    hide Pow, Low;
    LowStep(v, k - 1, b);
    PowStep(b, k - 1 - i);
    if i < k - 1 {
      LowDigit(v / b, k - 1, b, i);
      PowStep(b, k - 2 - i);
      Parts(v, Pow(b, k - 2 - i), b);
    }
  }
}
