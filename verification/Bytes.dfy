/** Bytes and fixed-width integers, as the wire formats lay them out. */
module Bytes {

  type Byte = x: int | 0 <= x < 256

  type Bytes = seq<Byte>

  datatype Option<+T> = None | Some(value: T)

  /** n zero bytes. */
  function Blank(n: nat): (z: Bytes)
    ensures |z| == n
  {
    if n == 0 then [] else Blank(n - 1) + [0]
  }

  lemma {:induction false} BlankStartsZero(n: nat)
    ensures n > 0 ==> Blank(n)[0] == 0
    decreases n
  {
    if n > 1 {
      BlankStartsZero(n - 1);
    }
  }

  /** 256 to the n, the number of values an n-byte field can hold. */
  function Pow256(n: nat): (r: nat)
    ensures r >= 1
  {
    if n == 0 then 1 else 256 * Pow256(n - 1)
  }

  /** The n low-order bytes of v, least significant first (a memcpy of an integer on a little-endian host). */
  function LittleEndian(v: nat, n: nat): (s: Bytes)
    ensures |s| == n
    decreases v, n
  {
    if n == 0 then [] else [v % 256] + LittleEndian(v / 256, n - 1)
  }

  function FromLittleEndian(s: Bytes): (v: nat)
    ensures v < Pow256(|s|)
  {
    if s == [] then 0 else s[0] + 256 * FromLittleEndian(s[1..])
  }

  /** The n low-order bytes of v, most significant first (network order). */
  function BigEndian(v: nat, n: nat): (s: Bytes)
    ensures |s| == n
    decreases v, n
  {
    if n == 0 then [] else BigEndian(v / 256, n - 1) + [v % 256]
  }

  function FromBigEndian(s: Bytes): (v: nat)
    ensures v < Pow256(|s|)
  {
    if s == [] then 0 else 256 * FromBigEndian(s[..|s| - 1]) + s[|s| - 1]
  }

  lemma {:induction false} LittleEndianRoundTrip(v: nat, n: nat)
    requires v < Pow256(n)
    ensures FromLittleEndian(LittleEndian(v, n)) == v
    decreases n
  {
    if n > 0 {
      LittleEndianRoundTrip(v / 256, n - 1);
      assert LittleEndian(v, n)[1..] == LittleEndian(v / 256, n - 1);
    }
  }

  lemma {:induction false} FromLittleEndianRoundTrip(s: Bytes)
    ensures LittleEndian(FromLittleEndian(s), |s|) == s
    decreases |s|
  {
    if s != [] {
      FromLittleEndianRoundTrip(s[1..]);
      assert FromLittleEndian(s) / 256 == FromLittleEndian(s[1..]);
      assert s == [s[0]] + s[1..];
    }
  }

  /** What lies above the field does not reach the bytes. */
  lemma {:induction false} LittleEndianIgnoresHigh(v: nat, q: nat, n: nat)
    ensures LittleEndian(v + q * Pow256(n), n) == LittleEndian(v, n)
    decreases n
  {
    if n > 0 {
      var x := q * Pow256(n - 1);
      assert q * Pow256(n) == 256 * x;
      assert (v + 256 * x) % 256 == v % 256 && (v + 256 * x) / 256 == v / 256 + x;
      LittleEndianIgnoresHigh(v / 256, q, n - 1);
    }
  }

  /** A value too wide for 32 bits loses its high-order part, as a narrowing cast does. */
  lemma LittleEndian32Truncates(v: nat)
    ensures FromLittleEndian(LittleEndian(v, 4)) == v % 0x1_0000_0000
  {
    Pow256Values();
    LittleEndianIgnoresHigh(v % 0x1_0000_0000, v / 0x1_0000_0000, 4);
    LittleEndianRoundTrip(v % 0x1_0000_0000, 4);
  }

  lemma {:induction false} BigEndianRoundTrip(v: nat, n: nat)
    requires v < Pow256(n)
    ensures FromBigEndian(BigEndian(v, n)) == v
    decreases n
  {
    if n > 0 {
      BigEndianRoundTrip(v / 256, n - 1);
      assert BigEndian(v, n)[..n - 1] == BigEndian(v / 256, n - 1);
    }
  }

  lemma {:induction false} FromBigEndianRoundTrip(s: Bytes)
    ensures BigEndian(FromBigEndian(s), |s|) == s
    decreases |s|
  {
    if s != [] {
      var front := s[..|s| - 1];
      FromBigEndianRoundTrip(front);
      assert FromBigEndian(s) / 256 == FromBigEndian(front);
      assert s == front + [s[|s| - 1]];
    }
  }

  lemma Pow256Values()
    ensures Pow256(1) == 0x100 && Pow256(2) == 0x1_0000 && Pow256(4) == 0x1_0000_0000
    ensures Pow256(8) == 0x1_0000_0000_0000_0000
  {
    assert Pow256(3) == 0x100_0000 && Pow256(5) == 0x100_0000_0000;
    assert Pow256(7) == 0x100_0000_0000_0000;
  }
}
