/** Rounding an address up to an alignment, shared by data placement and frame
    addresses. The source masks with the negated power of two or divides; here it
    is the least multiple. */
module Align {

  lemma {:induction false} MultipleMod(k: nat, align: int)
    requires align > 0
    ensures (align * k) % align == 0
  {
    if k > 0 {
      MultipleMod(k - 1, align);
      assert align * k == align * (k - 1) + align;
      AddMod(align * (k - 1), align);
    }
  }

  lemma AddMod(x: int, align: int)
    requires align > 0
    ensures (x + align) % align == x % align
  {
    var q, r := x / align, x % align;
    assert x + align == align * (q + 1) + r;
    DivUnique(x + align, align, q + 1, r);
  }

  lemma MulAtLeast(a: int, d: int)
    requires a > 0 && d >= 1
    ensures a * d >= a
  {
    assert a * d == a * (d - 1) + a;
  }

  lemma DivUnique(x: int, align: int, q: int, r: int)
    requires align > 0 && x == align * q + r && 0 <= r < align
    ensures x / align == q && x % align == r
  {
    var q', r' := x / align, x % align;
    assert align * (q' - q) == r - r';
    if q' > q {
      MulAtLeast(align, q' - q);
    } else if q' < q {
      assert align * (q - q') == r' - r;
      MulAtLeast(align, q - q');
    }
  }

  /** off rounded up to a multiple of align, counting up from 0. */
  function AlignUp(off: nat, align: int): (r: nat)
    requires align > 0
    ensures off <= r < off + align
  {
    if off == 0 then 0
    else
      var p := AlignUp(off - 1, align);
      if p >= off then p else p + align
  }

  lemma {:induction false} AlignUpMultiple(off: nat, align: int)
    requires align > 0
    ensures AlignUp(off, align) % align == 0
  {
    if off > 0 {
      AlignUpMultiple(off - 1, align);
      AddMod(AlignUp(off - 1, align), align);
    }
  }

  /** The multiple of align in reach is the only one. */
  lemma AlignUpIs(off: nat, align: int, r: nat)
    requires align > 0 && off <= r < off + align && r % align == 0
    ensures AlignUp(off, align) == r
  {
    AlignUpMultiple(off, align);
    SameMultiple(AlignUp(off, align), r, align);
  }

  lemma AlignUpLeast(off: nat, align: int, r: nat)
    requires align > 0 && off <= r && r % align == 0
    ensures AlignUp(off, align) <= r
  {
    if r < off + align { AlignUpIs(off, align, r); }
  }

  lemma SameMultiple(a: nat, b: nat, align: int)
    requires align > 0 && a % align == 0 && b % align == 0 && a < b + align && b < a + align
    ensures a == b
  {
    var p, q := a / align, b / align;
    assert a == align * p && b == align * q;
    assert align * (p - q) == a - b && align * (q - p) == b - a;
    if p > q { MulAtLeast(align, p - q); } else if q > p { MulAtLeast(align, q - p); }
  }

  lemma AlignUpByDivision(off: nat, align: int)
    requires align > 0
    ensures AlignUp(off, align) == (off + (align - 1)) / align * align
  {
    var x := off + (align - 1);
    var k := x / align;
    assert x == align * k + x % align;
    assert align * k == k * align;
    MultipleMod(k, align);
    AlignUpIs(off, align, align * k);
  }
}
