/** Unsigned machine words as naturals, one bit at a time.

    `Bit(m, i)` is `m & (1 << i) != 0`, `SetBit(m, i)` is `m | (1 << i)` and
    `ShiftLeft(m, d)` is `m << d` on a 64-bit word (bits shifted past bit 63 are lost).
 */
module Words {

  const U16: nat := 0x1_0000
  const U32: nat := 0x1_0000_0000
  const U48: nat := 0x1_0000_0000_0000
  const U64: nat := 0x1_0000_0000_0000_0000

  datatype Option<+T> = None | Some(value: T)

  type Byte = b: nat | b < 256

  type Bytes = seq<Byte>

  /** `a.saturating_sub(b)` */
  function SaturatingSub(a: nat, b: nat): nat {
    if a >= b then a - b else 0
  }

  function Pow2(n: nat): (p: nat)
    ensures p >= 1
  {
    if n == 0 then 1 else 2 * Pow2(n - 1)
  }

  predicate Bit(m: nat, i: nat)
    decreases i
  {
    if i == 0 then m % 2 == 1 else Bit(m / 2, i - 1)
  }

  function SetBit(m: nat, i: nat): nat
    decreases i
  {
    if i == 0 then (if m % 2 == 1 then m else m + 1)
    else 2 * SetBit(m / 2, i - 1) + m % 2
  }

  function ShiftLeft(m: nat, d: nat): nat
    decreases d
  {
    if d == 0 then m % Pow2(64) else ShiftLeft((2 * m) % Pow2(64), d - 1)
  }

  lemma {:induction false} SetBitBits(m: nat, i: nat, j: nat)
    ensures Bit(SetBit(m, i), j) <==> j == i || Bit(m, j)
    decreases i
  {
    if i == 0 {
      if m % 2 == 0 { assert (m + 1) / 2 == m / 2; }
    } else {
      var s := SetBit(m, i);
      assert s % 2 == m % 2 && s / 2 == SetBit(m / 2, i - 1);
      if j > 0 { SetBitBits(m / 2, i - 1, j - 1); }
    }
  }

  lemma HalfBelow(m: nat, half: nat)
    requires m < half + half
    ensures m / 2 < half && (m % 2 == 0 ==> m + 1 < half + half)
  {
  }

  lemma {:induction false} SetBitFits(m: nat, i: nat, k: nat)
    requires i < k && m < Pow2(k)
    ensures SetBit(m, i) < Pow2(k)
    decreases i
  {
    var half := Pow2(k - 1);
    assert Pow2(k) == half + half;
    HalfBelow(m, half);
    if i > 0 {
      SetBitFits(m / 2, i - 1, k - 1);
    }
  }

  lemma {:induction false} ZeroBits(i: nat)
    ensures !Bit(0, i)
  {
    if i > 0 { ZeroBits(i - 1); }
  }

  lemma HalfMod(m: nat, p: nat)
    requires p >= 1
    ensures (m % (2 * p)) / 2 == (m / 2) % p
    ensures (m % (2 * p)) % 2 == m % 2
  {
    var q, r := m / (2 * p), m % (2 * p);
    assert m == 2 * (q * p) + r by { assert m == q * (2 * p) + r; assert q * (2 * p) == 2 * (q * p); }
    assert m / 2 == q * p + r / 2;
    assert 0 <= r / 2 < p;
    ModUnique(m / 2, p, q, r / 2);
  }

  lemma MulAtLeast(a: int, p: nat)
    requires p >= 1
    ensures a >= 1 ==> a * p >= p
    ensures a <= -1 ==> a * p + p <= 0
  {
    if a >= 1 {
      assert (a - 1) * p >= 0;
    } else if a <= -1 {
      assert (-a - 1) * p >= 0;
    }
  }

  lemma ModUnique(m: nat, p: nat, q: nat, r: nat)
    requires p >= 1 && r < p && m == q * p + r
    ensures m % p == r && m / p == q
  {
    var q', r' := m / p, m % p;
    assert m == q' * p + r' && 0 <= r' < p;
    assert (q' - q) * p == r - r' by { assert (q' - q) * p == q' * p - q * p; }
    MulAtLeast(q' - q, p);
  }

  lemma {:induction false} TruncateBits(m: nat, k: nat, i: nat)
    requires i < k
    ensures Bit(m % Pow2(k), i) <==> Bit(m, i)
    decreases i
  {
    HalfMod(m, Pow2(k - 1));
    if i > 0 { TruncateBits(m / 2, k - 1, i - 1); }
  }

  lemma {:induction false} ShiftLeftBits(m: nat, d: nat, i: nat)
    requires i < 64
    ensures Bit(ShiftLeft(m, d), i) <==> d <= i && Bit(m, i - d)
    decreases d
  {
    if d == 0 {
      TruncateBits(m, 64, i);
    } else {
      var m' := (2 * m) % Pow2(64);
      ShiftLeftBits(m', d - 1, i);
      if d - 1 <= i {
        TruncateBits(2 * m, 64, i - (d - 1));
        if d <= i { assert (2 * m) / 2 == m; }
      }
    }
  }

  lemma {:induction false} ShiftLeftFits(m: nat, d: nat)
    ensures ShiftLeft(m, d) < Pow2(64)
    decreases d
  {
    if d > 0 { ShiftLeftFits((2 * m) % Pow2(64), d - 1); }
  }
}
