// The C bitwise operators the EEPROM code applies to `uint32_t` values,
// written on natural numbers: `|`, `&`, and the shifts by whole bytes. The
// VarAccess modules only shift by 0, 8, 16 or 24 bits.
module Bits {
  import opened Base

  /** `2^k`. */
  function Pow2(k: nat): (r: nat)
    ensures r >= 1
  {
    if k == 0 then 1 else 2 * Pow2(k - 1)
  }

  /** `256^k` for the byte offsets 0 to 4, as literals. */
  function Scale(k: nat): (r: nat)
    requires k <= 4
    ensures r >= 1
  {
    if k == 0 then 1 else if k == 1 then 0x100 else if k == 2 then 0x1_0000
    else if k == 3 then 0x100_0000 else 0x1_0000_0000
  }

  /** `a | b`. */
  function Or(a: nat, b: nat): nat
    decreases a + b
  {
    if a == 0 then b
    else if b == 0 then a
    else 2 * Or(a / 2, b / 2) + (if a % 2 == 1 || b % 2 == 1 then 1 else 0)
  }

  /** `a & b`. */
  function And(a: nat, b: nat): nat
    decreases a + b
  {
    if a == 0 || b == 0 then 0
    else 2 * And(a / 2, b / 2) + (if a % 2 == 1 && b % 2 == 1 then 1 else 0)
  }

  /** `w << 8k` on a `uint32_t`: the bits shifted past bit 31 are lost. */
  function Shl(w: uint32, k: nat): (r: uint32)
    requires k < 4
  {
    (w * Scale(k)) % TWO_32
  }

  /** `v >> 8k` on a `uint32_t`. */
  function Shr(v: uint32, k: nat): (r: uint32)
    requires k < 4
  {
    v / Scale(k)
  }

  lemma Pow2Add(a: nat, b: nat)
    ensures Pow2(a + b) == Pow2(a) * Pow2(b)
  {
    if a > 0 {
      Pow2Add(a - 1, b);
    }
  }

  lemma Pow2Bytes(k: nat)
    requires k <= 4
    ensures Pow2(8 * k) == Scale(k)
  {
    assert Pow2(8) == 0x100;
    if k > 0 {
      Pow2Bytes(k - 1);
      Pow2Add(8 * (k - 1), 8);
    }
  }

  /** `|` is symmetric. */
  lemma {:induction false} OrSymmetric(a: nat, b: nat)
    ensures Or(a, b) == Or(b, a)
    decreases a + b
  {
    if a != 0 && b != 0 {
      OrSymmetric(a / 2, b / 2);
    }
  }

  /** ORing a value into bits that are all zero adds it. */
  lemma {:induction false} OrDisjoint(a: nat, b: nat, k: nat)
    requires a < Pow2(k)
    ensures Or(a, b * Pow2(k)) == a + b * Pow2(k)
  {
    if a != 0 && b != 0 {
      assert k > 0;
      var c := b * Pow2(k - 1);
      assert b * Pow2(k) == 2 * c;
      assert (2 * c) / 2 == c && (2 * c) % 2 == 0;
      OrDisjoint(a / 2, b, k - 1);
    }
  }

  /** The byte-aligned form used by the EEPROM code. */
  lemma OrBytes(a: nat, b: nat, k: nat)
    requires k <= 4 && a < Scale(k)
    ensures Or(a, b * Scale(k)) == a + b * Scale(k)
    ensures Or(b * Scale(k), a) == a + b * Scale(k)
  {
    Pow2Bytes(k);
    OrDisjoint(a, b, 8 * k);
    OrSymmetric(a, b * Scale(k));
  }

  /** `&` with a mask of the low `k` bits keeps the value modulo `2^k`. */
  lemma {:induction false} AndLowBits(v: nat, k: nat)
    ensures And(v, Pow2(k) - 1) == v % Pow2(k)
  {
    if v != 0 && k != 0 {
      AndLowBits(v / 2, k - 1);
      var m := Pow2(k) - 1;
      assert m / 2 == Pow2(k - 1) - 1 && m % 2 == 1;
      ModHalves(v, Pow2(k - 1));
    }
  }

  lemma ModHalves(v: nat, p: nat)
    requires p >= 1
    ensures v % (2 * p) == 2 * ((v / 2) % p) + v % 2
  {
    var q := v / 2;
    assert v == 2 * q + v % 2;
    var r := q % p;
    assert q == p * (q / p) + r;
    assert v == (2 * p) * (q / p) + (2 * r + v % 2);
    assert 0 <= 2 * r + v % 2 < 2 * p;
    DivModUnique(v, 2 * p, q / p, 2 * r + v % 2);
  }

  lemma DivModUnique(v: int, d: int, q: int, r: int)
    requires d > 0 && 0 <= r < d && v == d * q + r
    ensures v % d == r
  {
    var q' := v / d;
    assert v == d * q' + v % d;
    if q' > q {
      MulAtLeast(d, q' - q);
      assert false;
    } else if q' < q {
      MulAtLeast(d, q - q');
      assert false;
    }
  }

  lemma MulAtLeast(d: int, x: int)
    requires d > 0 && x >= 1
    ensures d * x >= d
  {
    MulNonneg(d, x - 1);
    assert d * x == d * (x - 1) + d;
  }

  lemma MulNonneg(a: int, b: int)
    requires a >= 0 && b >= 0
    ensures a * b >= 0
  {
  }

  /** The byte-aligned form: `& 0xFF..FF` with `k` bytes keeps the value modulo `256^k`. */
  lemma AndBytes(v: nat, k: nat)
    requires k <= 4
    ensures And(v, Scale(k) - 1) == v % Scale(k)
  {
    Pow2Bytes(k);
    AndLowBits(v, 8 * k);
  }
}
