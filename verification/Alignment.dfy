/**
 Rounding to multiples. The kernel rounds with masks, (v + a - 1) & ~(a - 1), and only ever
 by powers of two, for which the mask form is the smallest multiple that is not below v.
 */
module Alignment {
  predicate PowerOfTwo(a: nat) {
    a == 1 || (a > 1 && a % 2 == 0 && PowerOfTwo(a / 2))
  }

  /** v is a multiple of a. */
  predicate Divides(a: nat, v: nat)
    requires a > 0
  {
    if v < a then v == 0 else Divides(a, v - a)
  }

  /** Smallest multiple of a that is not below v. */
  function AlignUp(v: nat, a: nat): (r: nat)
    requires a > 0
    ensures v <= r < v + a && Divides(a, r)
  {
    if v == 0 then 0 else if v <= a then a else a + AlignUp(v - a, a)
  }

  lemma ModStep(v: nat, a: nat)
    requires 0 < a <= v
    ensures v % a == (v - a) % a
  {
    var q, r := (v - a) / a, (v - a) % a;
    assert v - a == q * a + r;
    assert v == (q + 1) * a + r;
    var k, s := v / a, v % a;
    assert v == k * a + s;
    assert (k - (q + 1)) * a == r - s;
    MulGap(k - (q + 1), a);
  }

  lemma MulGap(d: int, m: int)
    requires m >= 0
    ensures d >= 1 ==> d * m >= m
    ensures d <= -1 ==> d * m <= -m
    ensures d == 0 ==> d * m == 0
  {
  }

  lemma {:induction false} DividesIsMod(a: nat, v: nat)
    requires a > 0
    ensures Divides(a, v) <==> v % a == 0
    decreases v
  {
    if v < a {
      SmallMod(v, a);
    } else {
      ModStep(v, a);
      DividesIsMod(a, v - a);
    }
  }

  lemma SmallMod(v: nat, a: nat)
    requires v < a
    ensures v % a == v
  {
    assert v == (v / a) * a + v % a;
    MulGap(v / a, a);
  }

  lemma {:induction false} DividesAdd(a: nat, x: nat, y: nat)
    requires a > 0 && Divides(a, x) && Divides(a, y)
    ensures Divides(a, x + y)
    decreases x
  {
    if x >= a { DividesAdd(a, x - a, y); }
  }

  lemma {:induction false} DividesSub(a: nat, x: nat, y: nat)
    requires a > 0 && Divides(a, x) && Divides(a, y) && x >= y
    ensures Divides(a, x - y)
    decreases y
  {
    if y >= a { DividesSub(a, x - a, y - a); }
  }

  lemma {:induction false} DividesTrans(d: nat, m: nat, v: nat)
    requires d > 0 && m > 0 && Divides(d, m) && Divides(m, v)
    ensures Divides(d, v)
    decreases v
  {
    if v >= m {
      DividesTrans(d, m, v - m);
      DividesAdd(d, m, v - m);
    }
  }

  /** A multiple rounds to itself. */
  lemma {:induction false} AlignUpFixed(v: nat, a: nat)
    requires a > 0 && Divides(a, v)
    ensures AlignUp(v, a) == v
    decreases v
  {
    if v > a { AlignUpFixed(v - a, a); }
  }

  lemma AlignUp16(v: nat)
    ensures AlignUp(v, 16) == (v + 15) / 16 * 16
  {
    DividesIsMod(16, AlignUp(v, 16));
  }

  lemma Multiples16(x: int, y: int)
    requires x % 16 == 0 && y % 16 == 0
    ensures (x + y) % 16 == 0 && (x - y) % 16 == 0
  {
  }

  lemma SmallPowers(a: nat)
    requires PowerOfTwo(a) && a < 4096
    ensures a in {1, 2, 4, 8, 16, 32, 64, 128, 256, 512, 1024, 2048}
  {
    if a >= 2 { SmallPowers(a / 2); }
  }

  lemma SmallPowerDividesPage(a: nat)
    requires a in {1, 2, 4, 8, 16, 32, 64, 128, 256, 512, 1024, 2048}
    ensures 4096 % a == 0
  {
  }

  /** A power of two divides 4096 or is a multiple of it. */
  lemma {:induction false} PowerOfTwoAndPage(a: nat)
    requires PowerOfTwo(a)
    ensures if a < 4096 then 4096 % a == 0 else a % 4096 == 0
  {
    if a < 4096 {
      SmallPowers(a);
      SmallPowerDividesPage(a);
    } else if a >= 8192 {
      PowerOfTwoAndPage(a / 2);
      var q := a / 2 / 4096;
      assert a / 2 == 4096 * q && a == 4096 * (2 * q);
    } else {
      SmallPowers(a / 2);
    }
  }

  /** A power of two above 16 is a multiple of 16. */
  lemma {:induction false} PowerOfTwoAbove16(a: nat)
    requires PowerOfTwo(a) && a > 16
    ensures a % 16 == 0
  {
    if a / 2 > 16 {
      PowerOfTwoAbove16(a / 2);
    } else {
      SmallPowers(a / 2);
    }
  }

  /** Rounding a page-aligned address by a power of two keeps it page-aligned. */
  lemma AlignUpKeepsPages(v: nat, a: nat)
    requires PowerOfTwo(a) && v % 4096 == 0
    ensures AlignUp(v, a) % 4096 == 0
  {
    PowerOfTwoAndPage(a);
    DividesIsMod(4096, v);
    DividesIsMod(4096, AlignUp(v, a));
    if a < 4096 {
      DividesIsMod(a, 4096);
      DividesTrans(a, 4096, v);
      AlignUpFixed(v, a);
    } else {
      DividesIsMod(4096, a);
      DividesTrans(4096, a, AlignUp(v, a));
    }
  }
}
