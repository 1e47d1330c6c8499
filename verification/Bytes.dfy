/** Bytes, fixed-width unsigned integers, and big-endian numerals. */
module Bytes {

  type byte = x: int | 0 <= x < 256

  type u32 = x: int | 0 <= x < 0x1_0000_0000

  type u64 = x: int | 0 <= x < 0x1_0000_0000_0000_0000

  function Pow256(width: nat): (p: nat)
    ensures p > 0
  {
    if width == 0 then 1 else 256 * Pow256(width - 1)
  }

  /** The last `width` base-256 digits of `n`, most significant first. */
  function BigEndian(n: nat, width: nat): (s: seq<byte>)
    ensures |s| == width
  {
    if width == 0 then [] else BigEndian(n / 256, width - 1) + [n % 256]
  }

  /** The number a big-endian byte string stands for. */
  function Number(s: seq<byte>): nat {
    if s == [] then 0 else 256 * Number(s[..|s| - 1]) + s[|s| - 1]
  }

  lemma {:induction false} NumberBelow(s: seq<byte>)
    ensures Number(s) < Pow256(|s|)
  {
    if s != [] {
      NumberBelow(s[..|s| - 1]);
    }
  }

  /** Reading a numeral back gives the number, as far as it fits. */
  lemma {:induction false} NumberOfBigEndian(n: nat, width: nat)
    ensures Number(BigEndian(n, width)) == n % Pow256(width)
  {
    if width > 0 {
      var s := BigEndian(n, width);
      assert s[..|s| - 1] == BigEndian(n / 256, width - 1);
      NumberOfBigEndian(n / 256, width - 1);
      DigitStep(n, Pow256(width - 1));
    }
  }

  lemma DigitStep(n: nat, p: nat)
    requires p > 0
    ensures 256 * ((n / 256) % p) + n % 256 == n % (256 * p)
  {
    var q := n / 256;
    var d := n % 256;
    var k := q / p;
    var r := q % p;
    assert q == k * p + r;
    assert n == 256 * q + d;
    assert n == 256 * (k * p) + 256 * r + d;
    assert 256 * (k * p) == k * (256 * p);
    assert 0 <= 256 * r + d < 256 * p by {
      assert 256 * r <= 256 * (p - 1);
    }
    ModUnique(n, 256 * p, k, 256 * r + d);
  }

  lemma ModUnique(n: nat, m: nat, k: nat, r: nat)
    requires m > 0 && r < m && n == k * m + r
    ensures n % m == r
  {
    var k' := n / m;
    assert n == k' * m + n % m;
    if k < k' {
      MulGap(k, k', m);
    } else if k' < k {
      MulGap(k', k, m);
    }
  }

  lemma MulGap(a: nat, b: nat, m: nat)
    requires a < b
    ensures b * m >= a * m + m
  {
    assert b * m == (a + 1) * m + (b - a - 1) * m;
    assert (b - a - 1) * m >= 0;
  }

  /** Writing the number of a byte string with its own width gives the string back. */
  lemma {:induction false} BigEndianOfNumber(s: seq<byte>)
    ensures BigEndian(Number(s), |s|) == s
  {
    if s != [] {
      var init := s[..|s| - 1];
      BigEndianOfNumber(init);
      assert Number(s) / 256 == Number(init) && Number(s) % 256 == s[|s| - 1];
      assert s == init + [s[|s| - 1]];
    }
  }
}
