/** The unit choice of `format_size`: the size is divided by 1024 while it
    is at least 1024 and a larger unit remains. Below 2^53 the size and
    every quotient are exact in floating point. From 2^53 on they may
    round, but then every quotient the loop tests is at least
    2^53 / 2^30 = 2^23, far above 1024, so every test succeeds and the
    unit is TB just as with whole numbers. So comparing the float quotient
    with 1024 gives the same answer as comparing the whole part, which is
    what is modelled here; the two-decimal rendering is not. */
module SizeFormat {

  const Units: seq<string> := ["B", "KB", "MB", "GB", "TB"]

  function Pow1024(n: nat): (r: nat)
    ensures r >= 1
  {
    if n == 0 then 1 else 1024 * Pow1024(n - 1)
  }

  /** The unit index and the whole part of the scaled size: the largest
      unit, up to TB, in which the size is at least one, with the scaled
      value below 1024 unless the unit is TB. */
  method UnitIndex(size: nat) returns (unit: nat, whole: nat)
    ensures unit < |Units|
    ensures whole * Pow1024(unit) <= size < (whole + 1) * Pow1024(unit)
    ensures unit == 0 || Pow1024(unit) <= size
    ensures unit == |Units| - 1 || size < Pow1024(unit + 1)
    ensures unit == |Units| - 1 || whole < 1024
  {
    unit := 0;
    whole := size;
    while whole >= 1024 && unit < |Units| - 1
      invariant unit < |Units|
      invariant whole * Pow1024(unit) <= size < (whole + 1) * Pow1024(unit)
      invariant unit == 0 || Pow1024(unit) <= size
    {
      ScaleDown(size, whole, unit);
      whole := whole / 1024;
      unit := unit + 1;
    }
    if whole < 1024 {
      Below(size, whole, unit);
    }
  }

  /** One more division by 1024 keeps `whole` the whole part of the
      scaled size. */
  lemma {:induction false} ScaleDown(size: nat, whole: nat, unit: nat)
    requires whole >= 1024
    requires whole * Pow1024(unit) <= size < (whole + 1) * Pow1024(unit)
    ensures (whole / 1024) * Pow1024(unit + 1) <= size < (whole / 1024 + 1) * Pow1024(unit + 1)
    ensures Pow1024(unit + 1) <= size
  {
    var p := Pow1024(unit);
    var w := whole / 1024;
    assert Pow1024(unit + 1) == 1024 * p;
    assert w * 1024 <= whole < (w + 1) * 1024;
    MulLe(w * 1024, whole, p);
    MulLe(whole + 1, (w + 1) * 1024, p);
    MulLe(1024, whole, p);
    assert w * (1024 * p) == (w * 1024) * p;
    assert (w + 1) * (1024 * p) == ((w + 1) * 1024) * p;
  }

  lemma Below(size: nat, whole: nat, unit: nat)
    requires whole < 1024
    requires size < (whole + 1) * Pow1024(unit)
    ensures size < Pow1024(unit + 1)
  {
    MulLe(whole + 1, 1024, Pow1024(unit));
  }

  /** The unit is determined by the size: two units that both satisfy the
      contract of `UnitIndex` are the same. */
  lemma {:induction false} UnitDetermined(size: nat, u: nat, v: nat)
    requires u < |Units| && v < |Units|
    requires u == 0 || Pow1024(u) <= size
    requires u == |Units| - 1 || size < Pow1024(u + 1)
    requires v == 0 || Pow1024(v) <= size
    requires v == |Units| - 1 || size < Pow1024(v + 1)
    ensures u == v
  {
    if u < v {
      PowMonotone(u + 1, v);
    } else if v < u {
      PowMonotone(v + 1, u);
    }
  }

  lemma {:induction false} PowMonotone(a: nat, b: nat)
    requires a <= b
    ensures Pow1024(a) <= Pow1024(b)
    decreases b
  {
    if a < b {
      PowMonotone(a, b - 1);
    }
  }

  lemma MulLe(a: int, b: int, c: nat)
    requires a <= b
    ensures a * c <= b * c
  {
  }
}
