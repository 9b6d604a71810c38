/**
 Human-readable byte sizes with binary (1024-based) units, as rendered by
 `sizeof_fmt` in pdexplorer.py.

 The rendered string is `<value><unit><suffix>`.  The model keeps the three
 parts apart and keeps the exact scaled value; the one-decimal rendering of
 the value is not modelled.
 */
module SizeFormat {

  /** The unit table walked by the loop; index k stands for 1024^k. */
  const Units: seq<string> := ["", "K", "M", "G", "T", "P", "E", "Z"]

  /** Index used once the table is exhausted: the `Y` fallback. */
  const YIndex: nat := 8

  /** A rendered size: the scaled value, the power of 1024 it was divided by,
      the unit chosen for that power and the caller's suffix. */
  datatype Formatted = Formatted(value: real, exponent: nat, unit: string, suffix: string)

  function Abs(x: real): (a: real) {
    if x < 0.0 then -x else x
  }

  /** 1024^k as a real number. */
  function Pow1024(k: nat): (p: real)
    ensures p >= 1.0
  {
    if k == 0 then 1.0 else 1024.0 * Pow1024(k - 1)
  }

  /** The unit name for a power of 1024: the table entry, or `Y` past its end. */
  function UnitName(k: nat): (u: string)
    requires k <= YIndex
  {
    if k < |Units| then Units[k] else "Y"
  }

  /** `n` divided k times by 1024, one division per step of the loop. */
  function Scaled(n: real, k: nat): (s: real)
    decreases k
  {
    if k == 0 then n else Scaled(n / 1024.0, k - 1)
  }

  /** The loop in functional form: `n` is the value reached so far and `i`
      the position reached in the unit table. */
  function ScaleFrom(n: real, i: nat, suffix: string): (r: Formatted)
    requires i <= |Units|
    ensures i <= r.exponent <= YIndex
    ensures r.unit == UnitName(r.exponent) && r.suffix == suffix
    decreases |Units| - i
  {
    if i == |Units| then Formatted(n, YIndex, "Y", suffix)
    else if Abs(n) < 1024.0 then Formatted(n, i, Units[i], suffix)
    else ScaleFrom(n / 1024.0, i + 1, suffix)
  }

  /** What the loop started at position `i` with value `n` returns: it stops at
      the first position whose scaled magnitude is below 1024, or falls back
      to `Y` after the last table entry. */
  lemma {:induction false} ScaleFromChoice(n: real, i: nat, suffix: string)
    requires i <= |Units|
    ensures var r := ScaleFrom(n, i, suffix);
      && i <= r.exponent <= YIndex
      && r.unit == UnitName(r.exponent)
      && r.suffix == suffix
      && r.value == Scaled(n, r.exponent - i)
      && (r.exponent < YIndex ==> Abs(r.value) < 1024.0)
      && (forall d :: 0 <= d < r.exponent - i ==> Abs(Scaled(n, d)) >= 1024.0)
    decreases |Units| - i
  {
    if i < |Units| && Abs(n) >= 1024.0 {
      var r := ScaleFrom(n / 1024.0, i + 1, suffix);
      ScaleFromChoice(n / 1024.0, i + 1, suffix);
      assert Scaled(n, r.exponent - i) == Scaled(n / 1024.0, r.exponent - (i + 1));
      forall d | 0 <= d < r.exponent - i
        ensures Abs(Scaled(n, d)) >= 1024.0
      {
        if d > 0 {
          assert Scaled(n, d) == Scaled(n / 1024.0, d - 1);
        }
      }
    }
  }

  /** Dividing k times by 1024 is dividing once by 1024^k. */
  lemma {:induction false} ScaledIsQuotient(n: real, k: nat)
    ensures Scaled(n, k) * Pow1024(k) == n
    ensures Scaled(n, k) == n / Pow1024(k)
    decreases k
  {
    if k > 0 {
      ScaledIsQuotient(n / 1024.0, k - 1);
      var s, p := Scaled(n, k), Pow1024(k - 1);
      assert s * p == n / 1024.0;
      assert s * Pow1024(k) == s * (1024.0 * p) == 1024.0 * (s * p);
    }
  }

  /** The size rendering of `num`: the first k in 0..7 at which num divided k
      times by 1024 is below 1024 in magnitude gives the unit and the value
      num / 1024^k; when there is none, the unit is `Y` and the value
      num / 1024^8. */
  function FormatSize(num: real, suffix: string): (r: Formatted)
    ensures r.exponent <= YIndex
    ensures r.unit == UnitName(r.exponent)
    ensures r.suffix == suffix
    ensures r.value == Scaled(num, r.exponent) == num / Pow1024(r.exponent)
    ensures r.exponent < YIndex ==> Abs(r.value) < 1024.0
    ensures forall j :: 0 <= j < r.exponent ==> Abs(Scaled(num, j)) >= 1024.0
  {
    ScaleFromChoice(num, 0, suffix);
    ScaledIsQuotient(num, ScaleFrom(num, 0, suffix).exponent);
    ScaleFrom(num, 0, suffix)
  }

  /** The loop of `sizeof_fmt`: divide by 1024 while the magnitude is at least
      1024 and units remain, then return with the current unit. */
  method SizeofFmt(num: real, suffix: string) returns (r: Formatted)
    ensures r == FormatSize(num, suffix)
  {
    var n := num;
    var i := 0;
    while i < |Units|
      invariant 0 <= i <= |Units|
      invariant ScaleFrom(n, i, suffix) == ScaleFrom(num, 0, suffix)
    {
      if Abs(n) < 1024.0 {
        return Formatted(n, i, Units[i], suffix);
      }
      n := n / 1024.0;
      i := i + 1;
    }
    return Formatted(n, YIndex, "Y", suffix);
  }

  /** The conditions FormatSize's result meets, stated for an arbitrary
      candidate rendering. */
  ghost predicate IsRendering(num: real, suffix: string, f: Formatted) {
    && f.exponent <= YIndex
    && f.unit == UnitName(f.exponent)
    && f.suffix == suffix
    && f.value == Scaled(num, f.exponent)
    && (f.exponent < YIndex ==> Abs(f.value) < 1024.0)
    && (forall j :: 0 <= j < f.exponent ==> Abs(Scaled(num, j)) >= 1024.0)
  }

  /** The conditions above pin the rendering down: FormatSize is the only
      rendering that meets them. */
  lemma RenderingUnique(num: real, suffix: string, f: Formatted)
    requires IsRendering(num, suffix, f)
    ensures f == FormatSize(num, suffix)
  {
  }

  /** Below 1024 in magnitude nothing is scaled: the value is the input and
      the unit is empty. */
  lemma NoScalingBelow1024(num: real, suffix: string)
    requires Abs(num) < 1024.0
    ensures FormatSize(num, suffix) == Formatted(num, 0, "", suffix)
  {
  }

  /** Scaling k times leaves a magnitude below 1024 exactly when the input is
      below 1024^(k+1). */
  lemma {:induction false} ScaledBelow(n: real, k: nat)
    ensures Abs(Scaled(n, k)) < 1024.0 <==> Abs(n) < Pow1024(k + 1)
    decreases k
  {
    if k > 0 {
      ScaledBelow(n / 1024.0, k - 1);
      assert Abs(n / 1024.0) == Abs(n) / 1024.0;
    }
  }

  /** 1024^i <= 1024^j when i <= j. */
  lemma {:induction false} PowMonotone(i: nat, j: nat)
    requires i <= j
    ensures Pow1024(i) <= Pow1024(j)
    decreases j - i
  {
    if i < j {
      PowMonotone(i, j - 1);
    }
  }

  /** The chosen unit is the magnitude band of the input: unit k below `Y`
      covers 1024^k <= |num| < 1024^(k+1) (for k = 0 everything below 1024),
      and `Y` is chosen exactly when |num| >= 1024^8. */
  lemma MagnitudeBand(num: real, suffix: string)
    ensures var k := FormatSize(num, suffix).exponent;
      && (k < YIndex ==> Abs(num) < Pow1024(k + 1))
      && (k > 0 ==> Abs(num) >= Pow1024(k))
      && (k == YIndex <==> Abs(num) >= Pow1024(YIndex))
  {
    var k := FormatSize(num, suffix).exponent;
    if k < YIndex {
      ScaledBelow(num, k);
      PowMonotone(k + 1, YIndex);
    }
    if k > 0 {
      ScaledBelow(num, k - 1);
    }
  }

  /** One more division: the last step of the loop. */
  lemma {:induction false} ScaledStep(n: real, k: nat)
    ensures Scaled(n, k + 1) == Scaled(n, k) / 1024.0
    decreases k
  {
    if k > 0 {
      ScaledStep(n / 1024.0, k - 1);
    }
  }

  /** Every scaled value is at least 1 in magnitude unless no scaling took
      place: a step is taken only from a magnitude of at least 1024. */
  lemma ScaledAtLeastOne(num: real, suffix: string)
    ensures var r := FormatSize(num, suffix);
      r.exponent > 0 ==> Abs(r.value) >= 1.0
  {
    var r := FormatSize(num, suffix);
    if r.exponent > 0 {
      ScaledStep(num, r.exponent - 1);
    }
  }

  /** Division by 1024, any number of times, keeps the sign. */
  lemma {:induction false} ScaledSign(n: real, k: nat)
    ensures Scaled(n, k) < 0.0 <==> n < 0.0
    ensures Scaled(n, k) == 0.0 <==> n == 0.0
    decreases k
  {
    if k > 0 {
      ScaledSign(n / 1024.0, k - 1);
    }
  }

  /** The rendered value has the sign of the input; zero stays zero. */
  lemma SignPreserved(num: real, suffix: string)
    ensures var v := FormatSize(num, suffix).value;
      && (v < 0.0 <==> num < 0.0)
      && (v == 0.0 <==> num == 0.0)
      && (v > 0.0 <==> num > 0.0)
  {
    ScaledSign(num, FormatSize(num, suffix).exponent);
  }

  /** The `Y` fallback does not bound the value: 1024^9 bytes render as
      1024 Y. */
  lemma YFallbackUnbounded()
    ensures FormatSize(Pow1024(9), "B") == Formatted(1024.0, YIndex, "Y", "B")
  {
    var num := Pow1024(9);
    forall j | 0 <= j < YIndex
      ensures Abs(Scaled(num, j)) >= 1024.0
    {
      ScaledBelow(num, j);
      PowMonotone(j + 1, 9);
    }
    ScaledIsQuotient(num, YIndex);
    assert num == 1024.0 * Pow1024(8);
    assert IsRendering(num, "B", Formatted(1024.0, YIndex, "Y", "B"));
    RenderingUnique(num, "B", Formatted(1024.0, YIndex, "Y", "B"));
  }

  /** Worked examples: 0 -> 0.0B, 1023 -> 1023.0B, 1024 -> 1.0KB,
      1536 -> 1.5KB, 1048576 -> 1.0MB. */
  lemma Examples()
    ensures FormatSize(0.0, "B") == Formatted(0.0, 0, "", "B")
    ensures FormatSize(1023.0, "B") == Formatted(1023.0, 0, "", "B")
    ensures FormatSize(1024.0, "B") == Formatted(1.0, 1, "K", "B")
    ensures FormatSize(1536.0, "B") == Formatted(1.5, 1, "K", "B")
    ensures FormatSize(1048576.0, "B") == Formatted(1.0, 2, "M", "B")
  {
    NoScalingBelow1024(0.0, "B");
    NoScalingBelow1024(1023.0, "B");
    RenderingUnique(1024.0, "B", Formatted(1.0, 1, "K", "B"));
    RenderingUnique(1536.0, "B", Formatted(1.5, 1, "K", "B"));
    assert Scaled(1048576.0, 1) == 1024.0;
    RenderingUnique(1048576.0, "B", Formatted(1.0, 2, "M", "B"));
  }
}
