/** Human-readable sizes: `format_file_size` (src/directory_listing/autoindex/html.rs), before rounding to two decimals. */
module FileSize {
  import opened ByteRange

  /** The number printed, and the index of its unit in B, KiB, MiB, GiB, TiB, PiB. */
  datatype Formatted = Formatted(value: real, unit: nat)

  const LARGEST_UNIT: nat := 5

  function Power(k: nat): (p: nat)
    ensures p > 0
  {
    if k == 0 then 1 else 1024 * Power(k - 1)
  }

  lemma Monotone(p: nat, a: nat, b: nat)
    requires a <= b
    ensures p * a <= p * b
  {
  }

  lemma Spread(m: nat, x: nat, y: nat)
    ensures m * (1024 * x + y) == (1024 * m) * x + m * y
  {
  }

  lemma DivDiv(a: nat, m: nat)
    requires m > 0
    ensures a / m / 1024 == a / (1024 * m)
  {
    var q := a / m;
    var x, y := q / 1024, q % 1024;
    Spread(m, x, y);
    Monotone(m, y, 1023);
    QuotientIs(a, 1024 * m, x, m * y + a % m);
  }

  lemma QuotientIs(a: nat, n: nat, q: nat, r: nat)
    requires n > 0 && a == n * q + r && r < n
    ensures a / n == q
  {
    var d := a / n - q;
    assert a == n * (a / n) + a % n;
    assert n * d == n * (a / n) - n * q;
    assert d >= 1 ==> n * d >= n;
    assert d <= -1 ==> n * d <= 0 - n;
  }

  lemma ShiftError(size: nat, k: nat, shifted: nat)
    requires k >= 1 && shifted == size / Power(k - 1)
    ensures 0.0 <= size as real / Power(k) as real - shifted as real / 1024.0 < 1.0 / 1024.0
  {
    var p := Power(k - 1);
    var r := size % p;
    assert Power(k) == 1024 * p;
    Exact(size, p, shifted, r);
    Quotient(p as real, shifted as real, r as real);
  }

  lemma Exact(size: nat, p: nat, q: nat, r: nat)
    requires p > 0 && q == size / p && r == size % p
    ensures size as real == p as real * q as real + r as real
  {
    assert size == p * q + r;
    assert (p * q) as real == p as real * q as real;
  }

  lemma Quotient(p: real, q: real, r: real)
    requires 0.0 <= r < p
    ensures 0.0 <= (p * q + r) / (1024.0 * p) - q / 1024.0 < 1.0 / 1024.0
  {
    Fraction(p, r);
    assert (p * q) / p == q;
    assert (p * q + r) / p == q + r / p;
    assert (p * q + r) / (1024.0 * p) == ((p * q + r) / p) / 1024.0;
  }

  lemma Fraction(p: real, r: real)
    requires 0.0 <= r < p
    ensures 0.0 <= r / p < 1.0
  {
  }

  /**
   * What is shown for a size: the unit is the largest whose value is at least one, the value stays below 1024 up to
   * TiB, and the repeated shifts lose less than 1/1024 of a unit in all.
   */
  ghost predicate Shows(size: u64, r: Formatted) {
    && r.unit <= LARGEST_UNIT
    && (r.unit == 0 ==> size < 1024 && r.value == size as real)
    && (r.unit > 0 ==> r.value >= 1.0 && Power(r.unit) <= size)
    && (0 < r.unit < LARGEST_UNIT ==> r.value < 1024.0 && size < Power(r.unit + 1))
    && (r.unit > 0 ==> 0.0 <= size as real / Power(r.unit) as real - r.value < 1.0 / 1024.0)
  }

  method FormatFileSize(size: u64) returns (r: Formatted)
    ensures Shows(size, r)
  {
    var sizeTmp: nat := size;
    if sizeTmp < 1024 {
      return Formatted(sizeTmp as real, 0);
    }
    for unit := 1 to LARGEST_UNIT
      invariant sizeTmp == size / Power(unit - 1) && sizeTmp >= 1024
    {
      UnitBounds(size, unit, sizeTmp);
      if sizeTmp < 1024 * 1024 {
        ShiftError(size, unit, sizeTmp);
        return Formatted(sizeTmp as real / 1024.0, unit);
      }
      DivDiv(size, Power(unit - 1));
      sizeTmp := sizeTmp / 1024;
    }
    UnitBounds(size, LARGEST_UNIT, sizeTmp);
    ShiftError(size, LARGEST_UNIT, sizeTmp);
    r := Formatted(sizeTmp as real / 1024.0, LARGEST_UNIT);
  }

  lemma UnitBounds(size: nat, k: nat, shifted: nat)
    requires k >= 1 && shifted == size / Power(k - 1) && shifted >= 1024
    ensures Power(k) <= size
    ensures shifted < 1024 * 1024 ==> size < Power(k + 1)
  {
    var p := Power(k - 1);
    assert Power(k) == 1024 * p && Power(k + 1) == 1024 * (1024 * p);
    Monotone(p, 1024, shifted);
    if shifted < 1024 * 1024 {
      Monotone(p, shifted, 1024 * 1024 - 1);
    }
  }

  /** Whatever is shown, from B to PiB, its unit and the size's power of 1024 determine each other. */
  lemma {:induction false} UnitIsExact(size: u64, r: Formatted, unit: nat)
    requires Shows(size, r) && unit <= LARGEST_UNIT
    ensures r.unit == unit <==> (unit > 0 ==> Power(unit) <= size) && (unit < LARGEST_UNIT ==> size < Power(unit + 1))
  {
    assert Power(1) == 1024 * Power(0);
    if r.unit < unit {
      PowerGrows(r.unit + 1, unit);
    } else if unit < r.unit {
      PowerGrows(unit + 1, r.unit);
    }
  }

  lemma {:induction false} PowerGrows(a: nat, b: nat)
    requires a <= b
    ensures Power(a) <= Power(b)
    decreases b - a
  {
    if a < b {
      PowerGrows(a, b - 1);
    }
  }

  /** The units: KiB, MiB, GiB, TiB and PiB in bytes. */
  lemma UnitSizes()
    ensures Power(1) == 1024 && Power(2) == 1_048_576 && Power(3) == 1_073_741_824
    ensures Power(4) == 1_099_511_627_776 && Power(5) == 1_125_899_906_842_624
  {
    assert Power(1) == 1024 * Power(0);
    assert Power(2) == 1024 * Power(1);
    assert Power(3) == 1024 * Power(2);
    assert Power(4) == 1024 * Power(3);
    assert Power(5) == 1024 * Power(4);
  }
}
