/** The binary formats float and double on whole numbers: 24 and 53 significant
    bits, rounding to nearest with ties to even, no bound on the exponent. */
module Binary {

  /** Two to the number of significant bits. */
  const Bits24: nat := 0x100_0000
  const Bits53: nat := 0x20_0000_0000_0000

  predicate Format(m: nat) {
    m >= 2 && m % 2 == 0
  }

  function Abs(n: int): (a: nat) {
    if n < 0 then -n else n
  }

  /** The distance between neighbours of the format around n, a power of two. */
  function Spacing(m: nat, n: nat): (s: nat)
    requires Format(m)
    ensures s >= 1
  {
    if n < m then 1 else 2 * Spacing(m, n / 2)
  }

  /** The multiple of s nearest to n, the even one of two. */
  function Nearest(n: nat, s: nat): nat
    requires s >= 1
  {
    Up(n / s, n % s, s)
  }

  function Up(q: nat, r: nat, s: nat): nat {
    if 2 * r < s || (2 * r == s && q % 2 == 0) then q * s else (q + 1) * s
  }

  function Round(m: nat, n: int): int
    requires Format(m)
  {
    if n < 0 then -(Nearest(-n, Spacing(m, -n)) as int) else Nearest(n, Spacing(m, n))
  }

  /** n is a number of the format. */
  ghost predicate Fits(m: nat, n: int)
    requires Format(m)
  {
    Multiple(Abs(n), Spacing(m, Abs(n)))
  }

  ghost predicate Multiple(n: nat, s: nat) {
    exists q: nat :: Factor(q, s, n)
  }

  predicate Factor(q: nat, s: nat, n: nat) {
    n == q * s
  }

  // ---------- arithmetic ----------

  lemma Ordered(a: int, b: int, s: nat)
    requires a <= b
    ensures a * s <= b * s
  {
  }

  lemma Quotient(n: nat, s: nat, q: nat, r: nat)
    requires n == q * s + r && r < s
    ensures n / s == q && n % s == r
  {
    var q', r' := n / s, n % s;
    assert n == q' * s + r';
    if q < q' {
      Ordered(q + 1, q', s);
    } else if q' < q {
      Ordered(q' + 1, q, s);
    }
  }

  lemma NearestAt(n: nat, s: nat, q: nat, r: nat)
    requires n == q * s + r && r < s
    ensures Nearest(n, s) == Up(q, r, s)
  {
    Quotient(n, s, q, r);
  }

  // ---------- spacing ----------

  lemma {:induction false} SpacingBounds(m: nat, n: nat)
    requires Format(m)
    ensures var s := Spacing(m, n); n < m * s && (s > 1 ==> m * s <= 2 * n)
  {
    if n >= m {
      SpacingBounds(m, n / 2);
      Twice(m, Spacing(m, n / 2));
    }
  }

  lemma Twice(a: int, b: int)
    ensures a * (2 * b) == 2 * (a * b)
  {
  }

  /** Every spacing that n stays within is a multiple of n's own. */
  lemma {:induction false} Divides(m: nat, n: nat, m': nat, y: nat) returns (k: nat)
    requires Format(m) && Format(m') && n < m * Spacing(m', y)
    ensures Spacing(m', y) == k * Spacing(m, n)
    decreases y
  {
    if n < m {
      k := Spacing(m', y);
    } else if y < m' {
      assert false;
    } else {
      Twice(m, Spacing(m', y / 2));
      k := Divides(m, n / 2, m', y / 2);
      Twice(k, Spacing(m, n / 2));
    }
  }

  lemma MultipleFits(m: nat, n: int, q: int, m': nat, y: nat)
    requires Format(m) && Format(m') && n == q * Spacing(m', y) && Abs(n) < m * Spacing(m', y)
    ensures Fits(m, n)
  {
    var k := Divides(m, Abs(n), m', y);
    Regroup(n, q, k, Spacing(m, Abs(n)));
  }

  lemma Regroup(n: int, q: int, k: nat, s: nat)
    requires s >= 1 && n == q * (k * s)
    ensures Multiple(Abs(n), s)
  {
    var p := Abs(q) * k;
    assert Abs(n) == Abs(q) * (k * s) == p * s;
    assert Factor(p, s, Abs(n));
  }

  lemma OneOnly(m: nat, n: nat, s: nat, k: nat)
    requires n < m * s && (k * s == 1 || m * (k * s) <= 2 * n) && k * s >= 1
    ensures k == 1
  {
    if k >= 2 {
      Ordered(2, k, s);
      Ordered(2 * s, k * s, m);
    }
  }

  lemma SpacingIs(m: nat, n: nat, y: nat)
    requires Format(m)
    requires var s := Spacing(m, y); n < m * s && (s == 1 || m * s <= 2 * n)
    ensures Spacing(m, n) == Spacing(m, y)
  {
    var k := Divides(m, n, m, y);
    SpacingBounds(m, n);
    OneOnly(m, n, Spacing(m, n), k);
  }

  // ---------- rounding ----------

  lemma SmallFits(m: nat, n: int)
    requires Format(m) && Abs(n) < m
    ensures Fits(m, n)
  {
    assert Factor(Abs(n), 1, Abs(n));
  }

  lemma FitsRounds(m: nat, n: int)
    requires Format(m) && Fits(m, n)
    ensures Round(m, n) == n
  {
    var s := Spacing(m, Abs(n));
    var q: nat :| Factor(q, s, Abs(n));
    NearestAt(Abs(n), s, q, 0);
  }

  /** Rounding is off by at most half a spacing. */
  lemma RoundError(m: nat, n: nat)
    requires Format(m)
    ensures Round(m, n) >= 0 && 2 * Abs(Round(m, n) - n) <= Spacing(m, n)
  {
    var s := Spacing(m, n);
    var q, r := n / s, n % s;
    assert n == q * s + r;
    assert (q + 1) * s == q * s + s;
  }

  /** What lies half way between two neighbours goes to the even one. */
  lemma TiesToEven(m: nat, n: nat, q: nat, r: nat)
    requires Format(m) && n == q * Spacing(m, n) + r && 2 * r == Spacing(m, n)
    ensures Round(m, n) == (if q % 2 == 0 then q else q + 1) * Spacing(m, n)
  {
    NearestAt(n, Spacing(m, n), q, r);
  }

  /** A multiple of s below m * s leaves room for one more. */
  lemma Below(m: nat, s: nat, q: nat)
    requires q * s < m * s
    ensures q < m && q * s + s <= m * s && (q > 0 ==> (q - 1) * s == q * s - s)
  {
    if q >= m { Ordered(m, q, s); }
    Ordered(q + 1, m, s);
  }

  /** What is rounded is a number of the format. */
  lemma RoundFits(m: nat, n: int)
    requires Format(m)
    ensures Fits(m, Round(m, n))
  {
    var q, r := RoundedBy(m, n);
    UpFits(m, Abs(n), q, r);
  }

  lemma RoundedBy(m: nat, n: int) returns (q: nat, r: nat)
    requires Format(m)
    ensures var s := Spacing(m, Abs(n)); r < s && q < m && q * s < m * s && Abs(Round(m, n)) == Up(q, r, s)
  {
    var s := Spacing(m, Abs(n));
    SpacingBounds(m, Abs(n));
    q, r := Split(Abs(n), s, m);
    NearestAt(Abs(n), s, q, r);
  }

  lemma Split(n: nat, s: nat, m: nat) returns (q: nat, r: nat)
    requires s >= 1 && n < m * s
    ensures n == q * s + r && r < s && q < m && q * s < m * s
  {
    q, r := n / s, n % s;
    Below(m, s, q);
  }

  lemma UpFits(m: nat, n: nat, q: nat, r: nat)
    requires Format(m) && r < Spacing(m, n) && q < m && q * Spacing(m, n) < m * Spacing(m, n)
    ensures Fits(m, Up(q, r, Spacing(m, n)))
  {
    var s := Spacing(m, n);
    if Up(q, r, s) == q * s {
      MultipleFits(m, q * s, q, m, n);
    } else if q + 1 < m {
      Ordered(q + 2, m, s);
      assert (q + 2) * s == (q + 1) * s + s;
      MultipleFits(m, (q + 1) * s, q + 1, m, n);
    } else {
      RoundFitsAbove(m, n);
    }
  }

  lemma Halves(m: nat, s: nat)
    requires m % 2 == 0 && m > 0 && s > 0
    ensures m / 2 * (2 * s) == m * s < m * (2 * s)
  {
    Twice(m / 2, s);
    Twice(m, s);
    Ordered(1, m, s);
  }

  lemma RoundFitsAbove(m: nat, n: nat)
    requires Format(m) && Spacing(m, n) > 1
    ensures Fits(m, m * Spacing(m, n))
  {
    var s := Spacing(m, n);
    assert Spacing(m, 2 * n) == 2 * s;
    Halves(m, s);
    MultipleFits(m, m * s, m / 2, m, 2 * n);
  }

  /** A number close to one of the format rounds to it; a quarter of a spacing is
      close also where the spacing below is half of the one above. */
  lemma Close(m: nat, x: nat, n: nat)
    requires Format(m) && Fits(m, x) && 4 * Abs(n - x) < Spacing(m, x)
    ensures Round(m, n) == x
  {
    var s := Spacing(m, x);
    var q: nat :| Factor(q, s, x);
    SpacingBounds(m, x);
    Below(m, s, q);
    if n >= x {
      SpacingIs(m, n, x);
      NearestAt(n, s, q, n - x);
    } else if m * s <= 2 * n {
      SpacingIs(m, n, x);
      NearestAt(n, s, q - 1, s - (x - n));
    } else {
      CloseBelow(m, x, n, q);
    }
  }

  /** The multiple q of 2 * h that lies less than h above m * h is m * h, m being even. */
  lemma Middle(m: nat, h: nat, q: nat, x: nat)
    requires m % 2 == 0 && h >= 1 && x == q * (2 * h) && m * h <= x < m * h + h
    ensures x == m * h && (m > 0 ==> m * h == (m - 1) * h + h)
  {
    if m > 0 { Halves(m, h); }
    if q > m / 2 { Ordered(m / 2 + 1, q, 2 * h); }
  }

  lemma CloseBelow(m: nat, x: nat, n: nat, q: nat)
    requires Format(m) && n < x && 4 * (x - n) < Spacing(m, x) && x == q * Spacing(m, x)
    requires Spacing(m, x) > 1 && 2 * n < m * Spacing(m, x)
    ensures Round(m, n) == x
  {
    var h := Spacing(m, x / 2);
    SpacingBounds(m, x);
    Twice(m, h);
    Middle(m, h, q, x);
    JustBelow(m, n, x / 2, h, x);
  }

  /** Less than half a spacing below the first number with a wider one. */
  lemma JustBelow(m: nat, n: nat, y: nat, h: nat, x: nat)
    requires Format(m) && h == Spacing(m, y) && x == m * h && n < x && 2 * (x - n) < h
    ensures Round(m, n) == x
  {
    Least(m, h);
    SpacingIs(m, n, y);
    NearestAt(n, h, m - 1, h - (x - n));
  }

  lemma Least(m: nat, h: nat)
    requires m >= 2
    ensures m * h >= 2 * h && (m + 1) * h == m * h + h && (m - 1) * h == m * h - h
  {
    Ordered(2, m, h);
  }

  // ---------- two roundings in a row ----------

  lemma RoundNegates(m: nat, n: int)
    requires Format(m)
    ensures Round(m, -n) == -Round(m, n)
  {
    if n == 0 { SmallFits(m, 0); FitsRounds(m, 0); }
  }

  /** Adding two floats in double and narrowing is adding them in float. */
  lemma SumNarrows(x: int, y: int)
    requires Fits(Bits24, x) && Fits(Bits24, y)
    ensures Round(Bits24, Round(Bits53, x + y)) == Round(Bits24, x + y)
    decreases if Abs(x) < Abs(y) then 2 else if x < 0 then 1 else 0
  {
    if Abs(x) < Abs(y) {
      SumNarrows(y, x);
    } else if x < 0 {
      SumNarrows(-x, -y);
      RoundNegates(Bits53, x + y);
      RoundNegates(Bits24, x + y);
      RoundNegates(Bits24, Round(Bits53, x + y));
    } else {
      var s := Spacing(Bits24, Abs(y));
      if x + y < Bits53 * s {
        SumExact(x, y);
      } else {
        SumAbsorbs(x, y);
      }
    }
  }

  lemma SumOf(x: nat, y: int, t: nat, k: nat, s: nat) returns (j: int)
    requires s >= 1 && t >= 1 && t == k * s && Multiple(x, t) && Multiple(Abs(y), s)
    ensures x + y == j * s
  {
    var p: nat :| Factor(p, t, x);
    var q: nat :| Factor(q, s, Abs(y));
    j := if y < 0 then p * k - q else p * k + q;
    assert p * k * s == p * (k * s);
  }

  /** A sum that needs no more than 53 bits is exact in double. */
  lemma SumExact(x: nat, y: int)
    requires Fits(Bits24, x) && Fits(Bits24, y) && Abs(y) <= x && x + y < Bits53 * Spacing(Bits24, Abs(y))
    ensures Round(Bits53, x + y) == x + y
  {
    SpacingBounds(Bits24, x);
    var k := Divides(Bits24, Abs(y), Bits24, x);
    var j := SumOf(x, y, Spacing(Bits24, x), k, Spacing(Bits24, Abs(y)));
    MultipleFits(Bits53, x + y, j, Bits24, Abs(y));
    FitsRounds(Bits53, x + y);
  }

  /** In any longer sum the smaller operand is lost, with or without the double. */
  lemma SumAbsorbs(x: nat, y: int)
    requires Fits(Bits24, x) && Abs(y) <= x && x + y >= Bits53 * Spacing(Bits24, Abs(y))
    ensures Round(Bits24, Round(Bits53, x + y)) == x && Round(Bits24, x + y) == x
  {
    var n := x + y;
    var v := Round(Bits53, n);
    SpacingBounds(Bits24, x);
    SpacingBounds(Bits24, Abs(y));
    SpacingBounds(Bits53, n);
    RoundError(Bits53, n);
    Tiny(x, y, Abs(v - n), Spacing(Bits24, x), Spacing(Bits24, Abs(y)), Spacing(Bits53, n));
    Close(Bits24, x, n);
    Close(Bits24, x, v);
  }

  lemma Tiny(x: nat, y: int, e: nat, sx: nat, sy: nat, sn: nat)
    requires x < Bits24 * sx && Abs(y) < Bits24 * sy && x + y >= Bits53 * sy
    requires sn >= 1 && (sn > 1 ==> Bits53 * sn <= 2 * (x + y)) && 2 * e <= sn && Abs(y) <= x
    ensures 4 * (Abs(y) + e) < sx
  {
  }
}
