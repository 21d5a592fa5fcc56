/** Byte strings, fixed-width integers and powers of two, as every other module uses them. */
module Bytes {

  type byte = x: int | 0 <= x < 256
  type Bytes = seq<byte>
  type u32 = x: int | 0 <= x < 0x1_0000_0000

  datatype Option<+T> = None | Some(value: T)

  datatype Result<+T, +E> = Ok(value: T) | Err(error: E)

  function Zeros(n: nat): (r: Bytes)
    ensures |r| == n
  {
    seq(n, _ => 0)
  }

  /** `a[at..at + src.len()].copy_from_slice(src)`. */
  method CopyAt(a: array<byte>, at: nat, src: Bytes)
    requires at + |src| <= a.Length
    modifies a
    ensures a[..] == old(a[..at]) + src + old(a[at + |src|..])
  {
    forall i | 0 <= i < |src| {
      a[at + i] := src[i];
    }
  }

  // ----- four-byte integers -----

  /** `u32::to_be_bytes`. */
  function Be32(n: u32): (r: Bytes)
    ensures |r| == 4
  {
    [n / 0x100_0000, n / 0x1_0000 % 256, n / 0x100 % 256, n % 256]
  }

  /** `u32::from_be_bytes`. */
  function FromBe32(b: Bytes): u32
    requires |b| == 4
  {
    0x100_0000 * (b[0] as int) + 0x1_0000 * (b[1] as int) + 0x100 * (b[2] as int) + b[3]
  }

  /** `u32::to_le_bytes`. */
  function Le32(n: u32): (r: Bytes)
    ensures |r| == 4
  {
    [n % 256, n / 0x100 % 256, n / 0x1_0000 % 256, n / 0x100_0000]
  }

  lemma Be32Decodes(n: u32)
    ensures FromBe32(Be32(n)) == n
  {
    var q1, q2 := n / 0x100, n / 0x1_0000;
    assert q2 == q1 / 0x100;
    assert n / 0x100_0000 == q2 / 0x100;
  }

  lemma Be32Encodes(b: Bytes)
    requires |b| == 4
    ensures Be32(FromBe32(b)) == b
  {
    var n := FromBe32(b);
    assert n / 0x100_0000 == b[0];
    assert n / 0x1_0000 == 0x100 * (b[0] as int) + b[1];
    assert n / 0x100 == 0x1_0000 * (b[0] as int) + 0x100 * (b[1] as int) + b[2];
  }

  lemma Be32Injective(m: u32, n: u32)
    requires Be32(m) == Be32(n)
    ensures m == n
  {
    Be32Decodes(m);
    Be32Decodes(n);
  }

  lemma Le32Injective(m: u32, n: u32)
    requires Le32(m) == Le32(n)
    ensures m == n
  {
    var a, b := Le32(m), Le32(n);
    assert Be32(m) == [a[3], a[2], a[1], a[0]];
    assert Be32(n) == [b[3], b[2], b[1], b[0]];
    Be32Injective(m, n);
  }

  // ----- powers of two and shifts -----

  function Pow2(k: nat): (r: nat)
    ensures r >= 1
  {
    if k == 0 then 1 else 2 * Pow2(k - 1)
  }

  lemma {:induction false} Pow2Adds(j: nat, k: nat)
    ensures Pow2(j + k) == Pow2(j) * Pow2(k)
  {
    if j > 0 {
      Pow2Adds(j - 1, k);
      assert Pow2(j + k) == 2 * (Pow2(j - 1) * Pow2(k));
    }
  }

  lemma {:induction false} Pow2Monotone(j: nat, k: nat)
    requires j <= k
    ensures Pow2(j) <= Pow2(k)
  {
    if j < k {
      Pow2Monotone(j, k - 1);
    }
  }

  lemma Pow2Eight()
    ensures Pow2(8) == 256
  {
    assert Pow2(4) == 16;
    Pow2Adds(4, 4);
  }

  /** `x >> k`, one bit at a time. */
  function Shift(x: nat, k: nat): (r: nat)
    ensures r <= x
  {
    if k == 0 then x else Shift(x, k - 1) / 2
  }

  /** A shift is a division by a power of two. */
  lemma {:induction false} ShiftDivides(x: nat, k: nat)
    ensures Shift(x, k) == x / Pow2(k)
  {
    if k > 0 {
      ShiftDivides(x, k - 1);
      HalveQuotient(x, Pow2(k - 1));
    }
  }

  lemma HalveQuotient(x: nat, p: nat)
    requires 0 < p
    ensures x / (2 * p) == x / p / 2
  {
    var q, r := x / p, x % p;
    var half, b := q / 2, q % 2;
    DoubleQuotient(p, half, b);
    QuotientUnique(x, 2 * p, half, if b == 0 then r else p + r);
  }

  lemma DoubleQuotient(p: nat, half: nat, b: nat)
    requires b < 2
    ensures p * (2 * half + b) == (2 * p) * half + if b == 0 then 0 else p
  {
  }

  /** A shifted index stays inside its level: x < 2^(j+k) gives x >> k < 2^j. */
  lemma {:induction false} ShiftBound(x: nat, j: nat, k: nat)
    requires x < Pow2(j + k)
    ensures Shift(x, k) < Pow2(j)
    decreases k
  {
    if k > 0 {
      ShiftBound(x, j + 1, k - 1);
    }
  }

  lemma QuotientUnique(x: nat, d: nat, q: nat, r: nat)
    requires 0 < d && r < d && x == d * q + r
    ensures x / d == q && x % d == r
  {
    var q', r' := x / d, x % d;
    assert x == d * q' + r';
    if q' < q {
      Scale(d, q' + 1, q);
    } else if q' > q {
      Scale(d, q + 1, q');
    }
  }

  lemma Scale(d: nat, a: int, b: int)
    requires a <= b
    ensures d * a <= d * b
  {
    assert d * (b - a) >= 0;
  }

}
