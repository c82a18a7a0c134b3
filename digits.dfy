/**
 * Big-endian positional numerals over an arbitrary base. Base 256 gives the
 * byte words of the contract ABI, base 16 the hexadecimal text written to the
 * database.
 */
module Digits {

  /** 2^256: one more than the largest `uint256`. */
  const TWO_256: nat := 0x1_0000000000000000_0000000000000000_0000000000000000_0000000000000000

  function Pow(b: nat, k: nat): (r: nat)
    ensures b > 0 ==> r > 0
  {
    if k == 0 then 1 else b * Pow(b, k - 1)
  }

  lemma {:induction false} PowAdd(b: nat, i: nat, j: nat)
    ensures Pow(b, i + j) == Pow(b, i) * Pow(b, j)
  {
    if i > 0 {
      PowAdd(b, i - 1, j);
    }
  }

  /** Thirty-two bytes hold exactly the values below 2^256. */
  lemma WordBound()
    ensures Pow(256, 32) == TWO_256
  {
    assert Pow(256, 2) == 0x1_0000;
    PowAdd(256, 2, 2);
    PowAdd(256, 4, 4);
    PowAdd(256, 8, 8);
    PowAdd(256, 16, 16);
  }

  /** Two hexadecimal digits per byte. */
  lemma {:induction false} HexPerByte(k: nat)
    ensures Pow(16, 2 * k) == Pow(256, k)
  {
    if k > 0 {
      HexPerByte(k - 1);
      assert Pow(16, 2 * k) == 16 * 16 * Pow(16, 2 * (k - 1));
    }
  }

  predicate AllBelow(ds: seq<nat>, base: nat) {
    forall i :: 0 <= i < |ds| ==> ds[i] < base
  }

  /** The value of the big-endian numeral `ds` in `base` (most significant digit first). */
  function FromDigits(ds: seq<nat>, base: nat): (r: nat)
    requires AllBelow(ds, base)
    ensures r < Pow(base, |ds|)
    decreases |ds|
  {
    if ds == [] then 0
    else
      var hi := FromDigits(ds[..|ds| - 1], base);
      NextDigitBound(hi, ds[|ds| - 1], base, Pow(base, |ds| - 1));
      hi * base + ds[|ds| - 1]
  }

  lemma NextDigitBound(hi: nat, d: nat, base: nat, p: nat)
    requires hi < p && d < base
    ensures hi * base + d < base * p
  {
    MulMonotone(hi + 1, p, base);
    assert (hi + 1) * base == hi * base + base;
  }

  lemma MulMonotone(x: nat, y: nat, m: nat)
    requires x <= y
    ensures x * m <= y * m
  {
  }

  /**
   * The low `k` digits of `n` in `base`, most significant first: the
   * zero-padded, fixed-width numeral of `n` when `n < base^k`.
   */
  function ToDigits(n: nat, base: nat, k: nat): (ds: seq<nat>)
    requires base >= 2
    ensures |ds| == k && AllBelow(ds, base)
    decreases k
  {
    if k == 0 then [] else ToDigits(n / base, base, k - 1) + [n % base]
  }

  /** A numeral of a value that fits its width reads back as that value. */
  lemma {:induction false} FromDigitsToDigits(n: nat, base: nat, k: nat)
    requires base >= 2 && n < Pow(base, k)
    ensures FromDigits(ToDigits(n, base, k), base) == n
    decreases k
  {
    if k > 0 {
      DivBelow(n, base, Pow(base, k - 1));
      FromDigitsToDigits(n / base, base, k - 1);
      var ds := ToDigits(n, base, k);
      assert ds[..k - 1] == ToDigits(n / base, base, k - 1);
      DivMod(n, base);
    }
  }

  lemma DivMod(n: nat, base: nat)
    requires base > 0
    ensures (n / base) * base + n % base == n
  {
  }

  lemma DivBelow(n: nat, base: nat, p: nat)
    requires base > 0 && n < base * p
    ensures n / base < p
  {
    var q := n / base;
    assert q * base <= n;
    if q >= p {
      MulMonotone(p, q, base);
      assert false;
    }
  }

  /** A fixed-width numeral is the numeral of its own value. */
  lemma {:induction false} ToDigitsFromDigits(ds: seq<nat>, base: nat)
    requires base >= 2 && AllBelow(ds, base)
    ensures ToDigits(FromDigits(ds, base), base, |ds|) == ds
    decreases |ds|
  {
    if ds != [] {
      var k := |ds|;
      var hi := FromDigits(ds[..k - 1], base);
      var d := ds[k - 1];
      assert (hi * base + d) / base == hi && (hi * base + d) % base == d by {
        DivModUnique(hi, d, base);
      }
      ToDigitsFromDigits(ds[..k - 1], base);
      assert ds == ds[..k - 1] + [d];
    }
  }

  lemma DivModUnique(q: nat, d: nat, base: nat)
    requires d < base
    ensures (q * base + d) / base == q && (q * base + d) % base == d
  {
    var n := q * base + d;
    var q', d' := n / base, n % base;
    assert n == q' * base + d';
    assert (q - q') * base == d' - d;
    if q > q' {
      MulMonotone(1, q - q', base);
      assert false;
    } else if q < q' {
      MulMonotone(1, q' - q, base);
      assert false;
    }
  }

  /** Two numerals of the same width with the same value are the same numeral. */
  lemma FromDigitsInjective(ds: seq<nat>, es: seq<nat>, base: nat)
    requires base >= 2 && AllBelow(ds, base) && AllBelow(es, base) && |ds| == |es|
    requires FromDigits(ds, base) == FromDigits(es, base)
    ensures ds == es
  {
    ToDigitsFromDigits(ds, base);
    ToDigitsFromDigits(es, base);
  }
}
