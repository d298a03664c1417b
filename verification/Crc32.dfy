/**
 The table-driven CRC-32 behind the STUN FINGERPRINT (section 15.5 of RFC 5389). A 32-bit word is
 the list of its bits, least significant first, so shifts and xors are what they are on bits.
 */
module Crc32 {
  import opened Bytes
  import opened Bits

  type Word = s: Bits | |s| == 32 witness Zeros(32)

  const POLYNOMIAL: nat := 0xEDB88320
  const FINGERPRINT_XOR: nat := 0x5354554E

  // ---- The definition: one message bit at a time, least significant first ----

  /** One shift of the register; poly is the generator. */
  function Shift(poly: Word, crc: Word): Word {
    var s := crc[1..] + [false];
    if crc[0] then Xor(s, poly) else s
  }

  /** Feeding message bits: each meets the low bit of the register, then the register shifts. */
  function FeedBits(poly: Word, crc: Word, bits: Bits): Word
    decreases |bits|
  {
    if bits == [] then crc else FeedBits(poly, Shift(poly, crc[0 := crc[0] != bits[0]]), bits[1..])
  }

  function Feed(poly: Word, crc: Word, data: Bytes): Word {
    if data == [] then crc
    else FeedBits(poly, Feed(poly, crc, data[..|data| - 1]), ToBits(data[|data| - 1], 8))
  }

  /** The checksum: all ones to start with, all bits inverted at the end. */
  function Crc(poly: Word, data: Bytes): Word { Xor(Feed(poly, Ones(32), data), Ones(32)) }

  // ---- Why a table of 256 entries is enough ----

  function Shifts(poly: Word, crc: Word, n: nat): Word
    decreases n
  {
    if n == 0 then crc else Shifts(poly, Shift(poly, crc), n - 1)
  }

  function Pad(z: Bits): (w: Word)
    requires |z| <= 32
    ensures forall i :: 0 <= i < 32 ==> w[i] == (i < |z| && z[i])
  {
    z + Zeros(32 - |z|)
  }

  /** Message bits not yet fed can wait xored into the register: they move down as it shifts. */
  lemma BitStep(poly: Word, y: Word, z: Bits)
    requires 0 < |z| <= 32
    ensures var x: Word := Xor(y, Pad(z));
            Shift(poly, x[0 := x[0] != z[0]]) == Xor(Shift(poly, y), Pad(z[1..]))
  {
    var x: Word := Xor(y, Pad(z));
    var l := Shift(poly, x[0 := x[0] != z[0]]);
    var r := Xor(Shift(poly, y), Pad(z[1..]));
    forall i | 0 <= i < 32
      ensures l[i] == r[i]
    {
    }
  }

  lemma {:induction false} BitsWait(poly: Word, y: Word, z: Bits)
    requires |z| <= 32
    ensures FeedBits(poly, Xor(y, Pad(z)), z) == Shifts(poly, y, |z|)
    decreases |z|
  {
    if z == [] {
      assert Xor(y, Pad(z)) == y;
    } else {
      BitStep(poly, y, z);
      BitsWait(poly, Shift(poly, y), z[1..]);
    }
  }

  /** Eight message bits at once are eight shifts of the register xored with the byte. */
  lemma ByteIsShifts(poly: Word, crc: Word, z: Bits)
    requires |z| <= 32
    ensures FeedBits(poly, crc, z) == Shifts(poly, Xor(crc, Pad(z)), |z|)
  {
    assert Xor(Xor(crc, Pad(z)), Pad(z)) == crc;
    BitsWait(poly, Xor(crc, Pad(z)), z);
  }

  lemma ShiftLinear(poly: Word, a: Word, b: Word, x: Word)
    requires x == Xor(a, b)
    ensures Shift(poly, x) == Xor(Shift(poly, a), Shift(poly, b))
  {
    var l := Shift(poly, x);
    var r := Xor(Shift(poly, a), Shift(poly, b));
    forall i | 0 <= i < 32
      ensures l[i] == r[i]
    {
    }
  }

  /** Shifts of three words of which one is the xor of the other two. */
  lemma {:induction false} ShiftsLinear(poly: Word, a: Word, b: Word, x: Word, n: nat)
    requires x == Xor(a, b)
    ensures Shifts(poly, x, n) == Xor(Shifts(poly, a, n), Shifts(poly, b, n))
    decreases n
  {
    if n > 0 {
      ShiftLinear(poly, a, b, x);
      ShiftsLinear(poly, Shift(poly, a), Shift(poly, b), Shift(poly, x), n - 1);
    }
  }

  /** Bits above the n lowest only move down. */
  lemma {:induction false} HighBitsMove(poly: Word, x: Word, n: nat)
    requires n <= 32 && forall i :: 0 <= i < n ==> !x[i]
    ensures Shifts(poly, x, n) == x[n..] + Zeros(n)
    decreases n
  {
    if n == 0 {
      assert x[0..] + Zeros(0) == x;
    } else {
      var s := Shift(poly, x);
      assert s == x[1..] + [false];
      HighBitsMove(poly, s, n - 1);
      assert s[n - 1..] + Zeros(n - 1) == x[n..] + Zeros(n);
    }
  }

  /** A table entry: the register after eight shifts of a byte. */
  function Entry(poly: Word, i: nat): Word { Shifts(poly, ToBits(i, 32), 8) }

  /** The first entries of the table, in order. */
  ghost predicate Entries(poly: Word, s: seq<Word>) {
    forall i :: 0 <= i < |s| ==> s[i] == Entry(poly, i)
  }

  ghost predicate IsTable(poly: Word, table: seq<Word>) {
    |table| == 256 && Entries(poly, table)
  }

  /** crc >> 8. */
  function Down8(crc: Word): Word { crc[8..] + Zeros(8) }

  /** (crc ^ byte) & 0xFF. */
  function Index(crc: Word, b: Byte): (i: nat)
    ensures i < 256
  {
    assert Pow2(8) == 256;
    Value(Xor(crc[..8], ToBits(b, 8)))
  }

  /** One table lookup feeds one byte. */
  lemma LookupFeeds(poly: Word, table: seq<Word>, crc: Word, b: Byte)
    requires IsTable(poly, table)
    ensures Xor(Down8(crc), table[Index(crc, b)]) == FeedBits(poly, crc, ToBits(b, 8))
  {
    var z := ToBits(b, 8);
    var x: Word := Xor(crc, Pad(z));
    ByteIsShifts(poly, crc, z);
    SplitShifts(poly, x);
    assert x[8..] == crc[8..];
    assert x[..8] == Xor(crc[..8], z);
    BitsOfValue(x[..8], 32);
  }

  /** Eight shifts of a word: its high bits move down, its low byte is looked up. */
  lemma SplitShifts(poly: Word, x: Word)
    ensures Shifts(poly, x, 8) == Xor(Down8(x), Shifts(poly, Pad(x[..8]), 8))
  {
    var high: Word := Zeros(8) + x[8..];
    assert x == Xor(high, Pad(x[..8]));
    ShiftsLinear(poly, high, Pad(x[..8]), x, 8);
    HighBitsMove(poly, high, 8);
    assert high[8..] == x[8..];
  }

  // ---- The code ----

  lemma {:induction false} ShiftsSnoc(poly: Word, crc: Word, n: nat)
    ensures Shifts(poly, crc, n + 1) == Shift(poly, Shifts(poly, crc, n))
    decreases n
  {
    if n > 0 {
      ShiftsSnoc(poly, Shift(poly, crc), n - 1);
    }
  }

  lemma OneMoreEntry(poly: Word, s: seq<Word>, w: Word)
    requires Entries(poly, s) && w == Entry(poly, |s|)
    ensures Entries(poly, s + [w])
  {
  }

  /** The inner loop of init_crc32_table: eight shifts. */
  method EightShifts(poly: Word, i: nat) returns (crc: Word)
    ensures crc == Entry(poly, i)
  {
    var start := ToBits(i, 32);
    crc := start;
    for j := 0 to 8
      invariant crc == Shifts(poly, start, j)
    {
      ShiftsSnoc(poly, start, j);
      crc := Shift(poly, crc);
    }
  }

  /** init_crc32_table. */
  method InitTable(poly: Word, table: array<Word>)
    requires table.Length == 256
    modifies table
    ensures IsTable(poly, table[..])
  {
    for i := 0 to table.Length
      invariant Entries(poly, table[..i])
    {
      var crc := EightShifts(poly, i);
      OneMoreEntry(poly, table[..i], crc);
      ghost var done := table[..i];
      table[i] := crc;
      assert table[..i + 1] == done + [crc];
    }
    assert table[..] == table[..table.Length];
  }

  /** compute_crc32: the lookup loop equals the bit-by-bit definition on every byte string. */
  method ComputeCrc32(poly: Word, table: seq<Word>, data: Bytes) returns (r: Word)
    requires IsTable(poly, table)
    ensures r == Crc(poly, data)
  {
    var crc: Word := Ones(32);
    for i := 0 to |data|
      invariant crc == Feed(poly, Ones(32), data[..i])
    {
      assert data[..i + 1][..i] == data[..i];
      LookupFeeds(poly, table, crc, data[i]);
      crc := Xor(Down8(crc), table[Index(crc, data[i])]);
    }
    assert data[..|data|] == data;
    r := Xor(crc, Ones(32));
  }

  /** stun_fingerprint, as the 32-bit number it is. */
  function Fingerprint(data: Bytes): nat {
    Value(Xor(Crc(ToBits(POLYNOMIAL, 32), data), ToBits(FINGERPRINT_XOR, 32)))
  }

  // ---- What the checksum notices ----

  /** With the top bit of the generator set, no two register values shift to the same one. */
  lemma ShiftInjective(poly: Word, a: Word, b: Word)
    requires poly[31] && Shift(poly, a) == Shift(poly, b)
    ensures a == b
  {
    var x, y := Shift(poly, a), Shift(poly, b);
    assert x[31] == a[0] && y[31] == b[0];
    forall i | 0 < i < 32
      ensures a[i] == b[i]
    {
      assert x[i - 1] == (a[i] != (a[0] && poly[i - 1])) && y[i - 1] == (b[i] != (b[0] && poly[i - 1]));
    }
  }

  lemma {:induction false} ShiftsInjective(poly: Word, a: Word, b: Word, n: nat)
    requires poly[31] && Shifts(poly, a, n) == Shifts(poly, b, n)
    ensures a == b
    decreases n
  {
    if n > 0 {
      ShiftsInjective(poly, Shift(poly, a), Shift(poly, b), n - 1);
      ShiftInjective(poly, a, b);
    }
  }

  lemma {:induction false} FeedBitsInjective(poly: Word, a: Word, b: Word, bits: Bits)
    requires poly[31] && FeedBits(poly, a, bits) == FeedBits(poly, b, bits)
    ensures a == b
    decreases |bits|
  {
    if bits != [] {
      var x, y := a[0 := a[0] != bits[0]], b[0 := b[0] != bits[0]];
      FeedBitsInjective(poly, Shift(poly, x), Shift(poly, y), bits[1..]);
      ShiftInjective(poly, x, y);
      assert x[0] == y[0] && forall i :: 0 < i < 32 ==> a[i] == x[i] == y[i] == b[i];
    }
  }

  lemma {:induction false} FeedInjective(poly: Word, a: Word, b: Word, data: Bytes)
    requires poly[31] && Feed(poly, a, data) == Feed(poly, b, data)
    ensures a == b
    decreases |data|
  {
    if data != [] {
      var front := data[..|data| - 1];
      FeedBitsInjective(poly, Feed(poly, a, front), Feed(poly, b, front), ToBits(data[|data| - 1], 8));
      FeedInjective(poly, a, b, front);
    }
  }

  lemma {:induction false} FeedAppend(poly: Word, crc: Word, p: Bytes, q: Bytes)
    ensures Feed(poly, crc, p + q) == Feed(poly, Feed(poly, crc, p), q)
    decreases |q|
  {
    if q == [] {
      assert p + q == p;
    } else {
      var front := q[..|q| - 1];
      FeedAppend(poly, crc, p, front);
      assert (p + q)[..|p + q| - 1] == p + front;
    }
  }

  function AllBits(data: Bytes): (z: Bits)
    ensures |z| == 8 * |data|
  {
    if data == [] then [] else AllBits(data[..|data| - 1]) + ToBits(data[|data| - 1], 8)
  }

  lemma {:induction false} FeedBitsAppend(poly: Word, crc: Word, x: Bits, y: Bits)
    ensures FeedBits(poly, crc, x + y) == FeedBits(poly, FeedBits(poly, crc, x), y)
    decreases |x|
  {
    if x == [] {
      assert x + y == y;
    } else {
      FeedBitsAppend(poly, Shift(poly, crc[0 := crc[0] != x[0]]), x[1..], y);
      assert (x + y)[1..] == x[1..] + y;
    }
  }

  lemma {:induction false} FeedIsFeedBits(poly: Word, crc: Word, data: Bytes)
    ensures Feed(poly, crc, data) == FeedBits(poly, crc, AllBits(data))
    decreases |data|
  {
    if data != [] {
      var front := data[..|data| - 1];
      FeedIsFeedBits(poly, crc, front);
      FeedBitsAppend(poly, crc, AllBits(front), ToBits(data[|data| - 1], 8));
    }
  }

  lemma {:induction false} AllBitsInjective(a: Bytes, b: Bytes)
    requires |a| == |b| && AllBits(a) == AllBits(b)
    ensures a == b
    decreases |a|
  {
    if a != [] {
      var n := |a| - 1;
      assert AllBits(a)[..8 * n] == AllBits(a[..n]) && AllBits(b)[..8 * n] == AllBits(b[..n]);
      assert AllBits(a)[8 * n..] == ToBits(a[n], 8) && AllBits(b)[8 * n..] == ToBits(b[n], 8);
      AllBitsInjective(a[..n], b[..n]);
      Pow2Values();
      ValueOfBits(a[n], 8);
      ValueOfBits(b[n], 8);
      assert a == a[..n] + [a[n]] && b == b[..n] + [b[n]];
    }
  }

  /** From one register value, two different short blocks of one length lead to different values. */
  lemma BlocksDiffer(poly: Word, crc: Word, a: Bytes, b: Bytes)
    requires poly[31] && |a| == |b| <= 4 && Feed(poly, crc, a) == Feed(poly, crc, b)
    ensures a == b
  {
    FeedIsFeedBits(poly, crc, a);
    FeedIsFeedBits(poly, crc, b);
    var x, y := AllBits(a), AllBits(b);
    ByteIsShifts(poly, crc, x);
    ByteIsShifts(poly, crc, y);
    ShiftsInjective(poly, Xor(crc, Pad(x)), Xor(crc, Pad(y)), |x|);
    forall i | 0 <= i < |x|
      ensures x[i] == y[i]
    {
      assert Xor(crc, Pad(x))[i] == (crc[i] != x[i]) && Xor(crc, Pad(y))[i] == (crc[i] != y[i]);
    }
    AllBitsInjective(a, b);
  }

  /** Two messages that differ, within four neighbouring bytes only, never have one checksum. */
  lemma BurstNoticed(poly: Word, front: Bytes, a: Bytes, b: Bytes, back: Bytes)
    requires poly[31] && |a| == |b| <= 4 && a != b
    ensures Crc(poly, front + a + back) != Crc(poly, front + b + back)
  {
    var start: Word := Ones(32);
    var mid := Feed(poly, start, front);
    var x, y := Feed(poly, mid, a), Feed(poly, mid, b);
    FeedAppend(poly, start, front, a);
    FeedAppend(poly, start, front, b);
    FeedAppend(poly, start, front + a, back);
    FeedAppend(poly, start, front + b, back);
    if Crc(poly, front + a + back) == Crc(poly, front + b + back) {
      XorInjective(Feed(poly, x, back), Feed(poly, y, back), start);
      FeedInjective(poly, x, y, back);
      BlocksDiffer(poly, mid, a, b);
    }
  }

  lemma XorInjective(a: Bits, b: Bits, c: Bits)
    requires |a| == |b| == |c| && Xor(a, c) == Xor(b, c)
    ensures a == b
  {
    forall i | 0 <= i < |a|
      ensures a[i] == b[i]
    {
      assert Xor(a, c)[i] == (a[i] != c[i]) && Xor(b, c)[i] == (b[i] != c[i]);
    }
  }

  lemma {:induction false} TopBit(v: nat, n: nat)
    requires n > 0 && Pow2(n - 1) <= v < Pow2(n)
    ensures ToBits(v, n)[n - 1]
    decreases n
  {
    if n > 1 {
      TopBit(v / 2, n - 1);
    }
  }

  lemma MaskedDiffer(c: Word, d: Word, mask: Word)
    requires c != d
    ensures Value(Xor(c, mask)) != Value(Xor(d, mask))
  {
    var x, y := Xor(c, mask), Xor(d, mask);
    if Value(x) == Value(y) {
      BitsOfValue(x, 32);
      BitsOfValue(y, 32);
      assert x + Zeros(0) == x && y + Zeros(0) == y;
      XorInjective(c, d, mask);
    }
  }

  lemma GeneratorTopBit()
    ensures ToBits(POLYNOMIAL, 32)[31]
  {
    Pow2Values();
    TopBit(POLYNOMIAL, 32);
  }

  /** The FINGERPRINT notices every change confined to four neighbouring bytes. */
  lemma FingerprintNoticesBurst(front: Bytes, a: Bytes, b: Bytes, back: Bytes)
    requires |a| == |b| <= 4 && a != b
    ensures Fingerprint(front + a + back) != Fingerprint(front + b + back)
  {
    GeneratorTopBit();
    var poly: Word := ToBits(POLYNOMIAL, 32);
    BurstNoticed(poly, front, a, b, back);
    MaskedDiffer(Crc(poly, front + a + back), Crc(poly, front + b + back), ToBits(FINGERPRINT_XOR, 32));
  }
}
