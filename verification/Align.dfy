/** Power-of-two sizes and alignment: the address arithmetic the tools write with masks. */
module Align {

  predicate IsPow2(n: nat)
  {
    n == 1 || (n > 1 && n % 2 == 0 && IsPow2(n / 2))
  }

  /** `x & ~(s - 1)` for a power of two `s`. */
  function AlignDown(x: nat, s: nat): (r: nat)
    requires s > 0
    ensures r <= x < r + s
  {
    x - x % s
  }

  function AlignUp(x: nat, s: nat): (r: nat)
    requires s > 0
    ensures x <= r < x + s
  {
    if x % s == 0 then x else x - x % s + s
  }

  lemma {:induction false} Pow2Gap(a: nat, b: nat)
    requires IsPow2(a) && IsPow2(b) && a < b
    ensures 2 * a <= b
  {
    if a != 1 { Pow2Gap(a / 2, b / 2); }
  }

  lemma Pow2Double(a: nat)
    requires IsPow2(a)
    ensures IsPow2(a + a) && (a % 8 == 0 ==> (a + a) % 8 == 0)
  {
    assert (a + a) / 2 == a;
  }

  lemma {:induction false} Pow2Divides(a: nat, b: nat)
    requires IsPow2(a) && IsPow2(b) && a <= b
    ensures a > 0 && b % a == 0
  {
    if a == 1 {
    } else {
      Pow2Divides(a / 2, b / 2);
      var q := (b / 2) / (a / 2);
      assert b / 2 == q * (a / 2);
      assert b == q * a;
      MultipleMod(q, a);
    }
  }

  lemma MultipleMod(q: nat, a: nat)
    requires a > 0
    ensures (q * a) % a == 0 && (q * a) / a == q
  {
    DivMod(q * a, a, q, 0);
  }

  lemma Scale(d: int, s: nat)
    ensures d >= 1 ==> d * s >= s
    ensures d <= -1 ==> d * s + s <= 0
    ensures d == 0 ==> d * s == 0
  {
    if d >= 1 { assert (d - 1) * s >= 0; }
    if d <= -1 { assert (-d - 1) * s >= 0; }
  }

  lemma MulLe(k: nat, x: int, y: int)
    requires x <= y
    ensures k * x <= k * y
  {
    assert k * (y - x) >= 0;
  }

  /** Euclidean division has one answer. */
  lemma DivMod(x: nat, s: nat, q: nat, r: nat)
    requires s > 0 && x == q * s + r && r < s
    ensures x / s == q && x % s == r
  {
    var d := x / s - q;
    assert x == (x / s) * s + x % s;
    assert d * s == r - x % s;
    Scale(d, s);
  }

  /** Shifting by a multiple keeps the remainder. */
  lemma ModShift(x: nat, y: nat, s: nat)
    requires s > 0 && x % s == 0
    ensures (x + y) % s == y % s && (x + y) / s == x / s + y / s
  {
    var q := x / s + y / s;
    assert x == (x / s) * s && y == (y / s) * s + y % s;
    assert x + y == q * s + y % s by {
      assert q * s == (x / s) * s + (y / s) * s;
    }
    DivMod(x + y, s, q, y % s);
  }

  lemma ModTrans(x: nat, a: nat, b: nat)
    requires a > 0 && b > 0 && x % b == 0 && b % a == 0
    ensures x % a == 0
  {
    var p, q := x / b, b / a;
    assert x == p * b && b == q * a;
    assert x == (p * q) * a by {
      assert p * (q * a) == (p * q) * a;
    }
    MultipleMod(p * q, a);
  }

  /** Distinct multiples of `s` are at least `s` apart. */
  lemma MultiplesApart(x: nat, y: nat, s: nat)
    requires s > 0 && x % s == 0 && y % s == 0 && x < y
    ensures x + s <= y
  {
    var p, q := x / s, y / s;
    assert x == p * s && y == q * s;
    Scale(q - p, s);
    assert y - x == (q - p) * s;
  }

  /** Masking step by step equals masking once. */
  lemma AlignDownTwice(x: nat, a: nat, b: nat)
    requires a > 0 && b > 0 && b % a == 0
    ensures AlignDown(AlignDown(x, a), b) == AlignDown(x, b)
    ensures AlignDown(x, b) % b == 0 && AlignDown(x, b) % a == 0
  {
    var y, z := AlignDown(x, a), AlignDown(x, b);
    AlignDownMultiple(x, a);
    AlignDownMultiple(x, b);
    ModTrans(z, a, b);
    if y < z { MultiplesApart(y, z, a); }
    DivMod(y, b, x / b, y - z);
  }

  lemma AlignDownMultiple(x: nat, s: nat)
    requires s > 0
    ensures AlignDown(x, s) % s == 0 && AlignDown(x, s) == (x / s) * s
  {
    assert x == (x / s) * s + x % s;
    MultipleMod(x / s, s);
  }

  /** Counting in units of `s` from an aligned base: `n * s` divides the address exactly if `n` divides the count. */
  lemma GroupEnd(base: nat, s: nat, n: nat, k: nat)
    requires s > 0 && n > 0 && base % (n * s) == 0
    ensures (base + k * s) % (n * s) == 0 <==> k % n == 0
  {
    var q, r := k / n, k % n;
    assert k == q * n + r;
    assert k * s == q * (n * s) + r * s by {
      assert (q * n + r) * s == (q * n) * s + r * s;
      assert (q * n) * s == q * (n * s);
    }
    assert (n - r) * s == n * s - r * s;
    Scale(n - r, s);
    Scale(r, s);
    DivMod(k * s, n * s, q, r * s);
    ModShift(base, k * s, n * s);
  }
}
