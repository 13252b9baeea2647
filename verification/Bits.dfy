/** Numbers as bits, most significant first, as they travel on a serial line, and what the powers
    of two do to sizes and addresses. */
module Bits {
  type Byte = b: int | 0 <= b < 0x100
  type Word = w: int | 0 <= w < 0x1_0000

  /** The bytes of a word exchanged */
  function Swap(w: Word): Word { w / 0x100 + w % 0x100 * 0x100 }

  function Pow2(n: nat): (p: nat)
    ensures p > 0
  {
    if n == 0 then 1 else 2 * Pow2(n - 1)
  }

  /** The low `n` bits of `v`. */
  function Low(v: nat, n: nat): (bits: seq<bool>)
    ensures |bits| == n
  {
    if n == 0 then [] else Low(v / 2, n - 1) + [v % 2 == 1]
  }

  function Value(bits: seq<bool>): nat {
    if bits == [] then 0 else 2 * Value(bits[..|bits| - 1]) + if bits[|bits| - 1] then 1 else 0
  }

  lemma Step(d: nat, a: nat, b: nat)
    requires a < b
    ensures d * a + d <= d * b
  {
    assert d * (a + 1) == d * a + d;
    var k := b - (a + 1);
    assert d * b == d * (a + 1) + d * k;
  }

  lemma Quotient(v: nat, d: nat, q: nat, r: nat)
    requires d > 0 && v == d * q + r && r < d
    ensures v / d == q && v % d == r
  {
    var q', r' := v / d, v % d;
    assert v == d * q' + r' && 0 <= r' < d;
    if q < q' { Step(d, q, q'); }
    if q' < q { Step(d, q', q); }
  }

  lemma ModTwice(v: nat, p: nat)
    requires p > 0
    ensures v % (2 * p) == 2 * (v / 2 % p) + v % 2
  {
    var h := v / 2;
    var q, r := h / p, h % p;
    assert h == p * q + r && v == 2 * h + v % 2;
    assert 2 * (p * q) == (2 * p) * q;
    Quotient(v, 2 * p, q, 2 * r + v % 2);
  }

  /** Sending the low bits of a number and reading them back gives what they stand for. */
  lemma {:induction false} ValueLow(v: nat, n: nat)
    ensures Value(Low(v, n)) == v % Pow2(n)
  {
    if n == 0 {
      Quotient(v, 1, v, 0);
    } else {
      ValueLow(v / 2, n - 1);
      ModTwice(v, Pow2(n - 1));
    }
  }

  lemma {:induction false} LowValue(bits: seq<bool>)
    ensures Low(Value(bits), |bits|) == bits && Value(bits) < Pow2(|bits|)
  {
    if bits == [] {
    } else {
      LowValue(bits[..|bits| - 1]);
    }
  }

  /** Bit `k` of `v`, tested with a mask. */
  predicate Test(v: nat, k: nat) { v / Pow2(k) % 2 == 1 }

  lemma {:induction false} TestHalf(v: nat, k: nat)
    ensures Test(v, k + 1) == Test(v / 2, k)
  {
    var p, h := Pow2(k), v / 2;
    var q, r := h / p, h % p;
    assert h == p * q + r && v == 2 * h + v % 2;
    assert 2 * (p * q) == (2 * p) * q;
    Quotient(v, 2 * p, q, 2 * r + v % 2);
  }

  /** The low bits, taken from the top. */
  /** The mask of a shift loop, one bit on */
  lemma MaskStep(left: nat)
    requires left > 0
    ensures Pow2(left - 1) / 2 == if left == 1 then 0 else Pow2(left - 2)
  {
  }

  lemma {:induction false} LowTop(v: nat, n: nat)
    ensures Low(v, n + 1) == [Test(v, n)] + Low(v, n)
  {
    if n > 0 {
      LowTop(v / 2, n - 1);
      TestHalf(v, n - 1);
    } else {
      assert v / Pow2(0) == v;
    }
  }

  /** A number's low bits are those of its high part, then those of its low part. */
  lemma {:induction false} LowJoin(high: nat, low: nat, m: nat, n: nat)
    requires low < Pow2(n)
    ensures Low(Pow2(n) * high + low, m + n) == Low(high, m) + Low(low, n)
  {
    var v := Pow2(n) * high + low;
    if n == 0 {
      assert v == high && m + n == m;
    } else {
      var p := Pow2(n - 1);
      assert Pow2(n) * high == 2 * (p * high);
      LowJoin(high, low / 2, m, n - 1);
      assert v / 2 == p * high + low / 2 && v % 2 == low % 2;
      assert Low(v, m + n) == Low(v / 2, m + (n - 1)) + [v % 2 == 1];
    }
  }

  lemma PowValues()
    ensures Pow2(4) == 16 && Pow2(5) == 32 && Pow2(8) == 0x100 && Pow2(12) == 0x1000 && Pow2(16) == 0x1_0000
    ensures Pow2(32) == 0x1_0000_0000
  {
    assert Pow2(4) == 16;
    assert Pow2(8) == 16 * Pow2(4);
    assert Pow2(12) == 16 * Pow2(8);
    assert Pow2(16) == 16 * Pow2(12);
    assert Pow2(20) == 16 * Pow2(16);
    assert Pow2(24) == 16 * Pow2(20);
    assert Pow2(28) == 16 * Pow2(24);
    assert Pow2(32) == 16 * Pow2(28);
  }
}
