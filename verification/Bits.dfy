/** Numbers as lists of bits, least significant first: exclusive or is then what it is on bits. */
module Bits {

  type Bits = seq<bool>

  function Zeros(n: nat): (z: Bits)
    ensures |z| == n && forall i :: 0 <= i < n ==> !z[i]
  {
    if n == 0 then [] else Zeros(n - 1) + [false]
  }

  function Ones(n: nat): (z: Bits)
    ensures |z| == n && forall i :: 0 <= i < n ==> z[i]
  {
    if n == 0 then [] else Ones(n - 1) + [true]
  }

  function Xor(a: Bits, b: Bits): (r: Bits)
    requires |a| == |b|
    ensures |r| == |a| && forall i :: 0 <= i < |a| ==> r[i] == (a[i] != b[i])
  {
    seq(|a|, i requires 0 <= i < |a| => a[i] != b[i])
  }

  /** The n low bits of a number. */
  function ToBits(v: nat, n: nat): (r: Bits)
    ensures |r| == n
    decreases v, n
  {
    if n == 0 then [] else [v % 2 == 1] + ToBits(v / 2, n - 1)
  }

  function Pow2(n: nat): (r: nat)
    ensures r >= 1
  {
    if n == 0 then 1 else 2 * Pow2(n - 1)
  }

  function Value(s: Bits): (v: nat)
    ensures v < Pow2(|s|)
  {
    if s == [] then 0 else (if s[0] then 1 else 0) + 2 * Value(s[1..])
  }

  lemma {:induction false} BitsOfValue(s: Bits, n: nat)
    requires |s| <= n
    ensures ToBits(Value(s), n) == s + Zeros(n - |s|)
    decreases n
  {
    if s == [] {
      BitsOfZero(n);
    } else {
      BitsOfValue(s[1..], n - 1);
      assert Value(s) / 2 == Value(s[1..]) && (Value(s) % 2 == 1) == s[0];
      assert s == [s[0]] + s[1..];
    }
  }

  lemma {:induction false} BitsOfZero(n: nat)
    ensures ToBits(0, n) == Zeros(n)
    decreases n
  {
    if n > 0 {
      BitsOfZero(n - 1);
    }
  }

  lemma {:induction false} ValueOfBits(v: nat, n: nat)
    requires v < Pow2(n)
    ensures Value(ToBits(v, n)) == v
    decreases n
  {
    if n > 0 {
      ValueOfBits(v / 2, n - 1);
      assert ToBits(v, n)[1..] == ToBits(v / 2, n - 1);
    }
  }

  /** a ^ b on n-bit unsigned numbers. */
  function XorNum(a: nat, b: nat, n: nat): (r: nat)
    ensures r < Pow2(n)
  {
    Value(Xor(ToBits(a, n), ToBits(b, n)))
  }

  lemma XorNumUndone(a: nat, b: nat, n: nat)
    requires a < Pow2(n)
    ensures XorNum(XorNum(a, b, n), b, n) == a
  {
    var x, k := ToBits(a, n), ToBits(b, n);
    BitsOfValue(Xor(x, k), n);
    assert ToBits(XorNum(a, b, n), n) == Xor(x, k);
    assert Xor(Xor(x, k), k) == x;
    ValueOfBits(a, n);
  }

  function Or(a: Bits, b: Bits): (r: Bits)
    requires |a| == |b|
    ensures |r| == |a| && forall i :: 0 <= i < |a| ==> r[i] == (a[i] || b[i])
  {
    seq(|a|, i requires 0 <= i < |a| => a[i] || b[i])
  }

  /** a | b on n-bit unsigned numbers. */
  function OrNum(a: nat, b: nat, n: nat): (r: nat)
    ensures r < Pow2(n)
  {
    Value(Or(ToBits(a, n), ToBits(b, n)))
  }

  /** A number that ends in k zero bits and one of at most k bits do not overlap: their or is their sum. */
  lemma {:induction false} OrIsSum(a: nat, b: nat, k: nat, n: nat)
    requires k <= n && a * Pow2(k) < Pow2(n) && b < Pow2(k)
    ensures OrNum(a * Pow2(k), b, n) == a * Pow2(k) + b
    decreases n
  {
    var high := a * Pow2(k);
    if k == 0 {
      BitsOfZero(n);
      assert Or(ToBits(high, n), Zeros(n)) == ToBits(high, n);
      ValueOfBits(high, n);
    } else {
      var half := a * Pow2(k - 1);
      assert high == 2 * half;
      OrIsSum(a, b / 2, k - 1, n - 1);
      var x, y := ToBits(high, n), ToBits(b, n);
      assert x[1..] == ToBits(half, n - 1) && y[1..] == ToBits(b / 2, n - 1);
      assert Or(x, y)[1..] == Or(x[1..], y[1..]);
      assert Or(x, y)[0] == (b % 2 == 1);
    }
  }

  lemma Pow2Values()
    ensures Pow2(8) == 0x100 && Pow2(16) == 0x1_0000 && Pow2(32) == 0x1_0000_0000
  {
    assert Pow2(8) == 0x100;
    assert Pow2(12) == 0x1000;
    assert Pow2(16) == 0x1_0000;
    assert Pow2(20) == 0x10_0000;
    assert Pow2(24) == 0x100_0000;
    assert Pow2(28) == 0x1000_0000;
  }
}
