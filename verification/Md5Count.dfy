/** The bit counter of the digest: two words updated with carries, and what is left
    of them when they are stored into the last block. */
module Md5Count {
  import opened Md5Spec

  /** A number as a 64-bit machine word. */
  function Bits64(n: nat, k: nat): bv64 {
    if k == 0 then 0 else Twice64(Bits64(n / 2, k - 1), n % 2 == 1)
  }

  function Twice64(x: bv64, bit: bool): bv64 {
    if bit then (x << 1) | 1 else x << 1
  }

  function Word64(n: nat): bv64 {
    Bits64(n, 64)
  }

  lemma DoubleLow(x: bv64)
    ensures Low(x << 1) == Low(x) << 1
  {
  }

  lemma DoublePlusLow(x: bv64)
    ensures Low((x << 1) | 1) == (Low(x) << 1) | 1
  {
  }

  lemma TwiceLow(x: bv64, bit: bool)
    ensures Low(Twice64(x, bit)) == Twice(Low(x), bit)
  {
    hide Low;
    DoubleLow(x);
    DoublePlusLow(x);
  }

  lemma {:induction false} Bits64Low(n: nat, k: nat)
    ensures Low(Bits64(n, k)) == Bits(n, k)
    decreases k
  {
    hide Low, Twice, Twice64;
    if k == 0 {
      ZeroLow();
    } else {
      Bits64Low(n / 2, k - 1);
      TwiceLow(Bits64(n / 2, k - 1), n % 2 == 1);
    }
  }

  lemma ZeroLow()
    ensures Low(0) == 0
  {
  }

  // ----- bits beyond the 32nd are shifted out ------------------------------------------

  function Xor(x: bv32, y: bv32): bv32 {
    x ^ y
  }

  function Shl(x: bv32, k: nat): bv32 {
    if k == 0 then x else Double(Shl(x, k - 1))
  }

  function Double(x: bv32): bv32 {
    x << 1
  }

  lemma XorIs(x: bv32, y: bv32)
    ensures Xor(x, y) == x ^ y
  {
  }

  lemma ShiftedXor(x: bv32, y: bv32)
    ensures Double(x ^ y) == Xor(x << 1, y << 1)
  {
  }

  lemma ShiftedOneXor(x: bv32, y: bv32)
    ensures Double(x ^ y) == Xor((x << 1) | 1, (y << 1) | 1)
  {
  }

  lemma TwiceXor(x: bv32, y: bv32, bit: bool)
    ensures Xor(Twice(x, bit), Twice(y, bit)) == Double(Xor(x, y))
  {
    hide Xor, Double;
    XorIs(x, y);
    ShiftedXor(x, y);
    ShiftedOneXor(x, y);
  }

  lemma XorZero(x: bv32, y: bv32)
    ensures Xor(x, 0) == x
    ensures Xor(x, y) == 0 ==> x == y
  {
  }

  function ShiftByte(x: bv32): bv32 {
    x << 8
  }

  lemma Double8(x: bv32)
    ensures Double(Double(Double(Double(Double(Double(Double(Double(x)))))))) == ShiftByte(x)
  {
  }

  lemma Shl8(x: bv32, k: nat)
    ensures Shl(x, k + 8) == ShiftByte(Shl(x, k))
  {
    hide Double, ShiftByte;
    assert Shl(x, k + 1) == Double(Shl(x, k));
    assert Shl(x, k + 2) == Double(Shl(x, k + 1));
    assert Shl(x, k + 3) == Double(Shl(x, k + 2));
    assert Shl(x, k + 4) == Double(Shl(x, k + 3));
    assert Shl(x, k + 5) == Double(Shl(x, k + 4));
    assert Shl(x, k + 6) == Double(Shl(x, k + 5));
    assert Shl(x, k + 7) == Double(Shl(x, k + 6));
    assert Shl(x, k + 8) == Double(Shl(x, k + 7));
    Double8(Shl(x, k));
  }

  lemma Gone(x: bv32)
    ensures ShiftByte(ShiftByte(ShiftByte(ShiftByte(x)))) == 0
  {
  }

  lemma ShiftedOut(x: bv32)
    ensures Shl(x, 32) == 0
  {
    hide ShiftByte, Double;
    assert Shl(x, 0) == x;
    Shl8(x, 0);
    Shl8(x, 8);
    Shl8(x, 16);
    Shl8(x, 24);
    Gone(x);
  }

  /** Taking more bits only changes what lies above the first `j`. */
  lemma {:induction false} MoreBits(n: nat, k: nat, j: nat) returns (d: bv32)
    requires j <= k
    ensures Xor(Bits(n, k), Bits(n, j)) == Shl(d, j)
    decreases j
  {
    hide Xor, Twice, Double;
    if j == 0 {
      d := Bits(n, k);
      XorZero(d, 0);
    } else {
      d := MoreBits(n / 2, k - 1, j - 1);
      TwiceXor(Bits(n / 2, k - 1), Bits(n / 2, j - 1), n % 2 == 1);
    }
  }

  lemma WordLow(n: nat)
    ensures Low(Word64(n)) == Word(n)
  {
    hide Low, Xor, Bits, Bits64;
    Bits64Low(n, 64);
    var d := MoreBits(n, 64, 32);
    ShiftedOut(d);
    XorZero(Bits(n, 64), Bits(n, 32));
  }

  function Pow2(k: nat): (p: nat)
    ensures p > 0
  {
    if k == 0 then 1 else 2 * Pow2(k - 1)
  }

  lemma HalfMod(n: nat, p: nat)
    requires p > 0
    ensures n % (2 * p) / 2 == n / 2 % p && n % (2 * p) % 2 == n % 2
  {
    var q := n / (2 * p);
    var r := n % (2 * p);
    assert n == q * (2 * p) + r;
    assert q * (2 * p) == 2 * (q * p);
    assert n / 2 == q * p + r / 2;
    ModUnique(n / 2, p, q, r / 2);
  }

  lemma ModUnique(n: nat, p: nat, q: nat, r: nat)
    requires n == q * p + r && r < p
    ensures n % p == r
  {
    var d := n / p;
    assert n == d * p + n % p;
    assert (q - d) * p == n % p - r;
    MulBound(q - d, p, n % p - r);
  }

  lemma MulBound(x: int, p: int, y: int)
    requires p > 0 && x * p == y && -p < y < p
    ensures x == 0
  {
    MulGrows(x, p);
  }

  lemma MulGrows(x: int, p: int)
    requires p > 0
    ensures x >= 1 ==> x * p >= p
    ensures x <= -1 ==> x * p <= -p
  {
  }

  lemma {:induction false} BitsMod(n: nat, k: nat)
    ensures Bits(n % Pow2(k), k) == Bits(n, k)
    decreases k
  {
    hide Twice;
    if k > 0 {
      HalfMod(n, Pow2(k - 1));
      BitsMod(n / 2, k - 1);
    }
  }

  lemma Pow2Of32()
    ensures Pow2(32) == 0x1_0000_0000
  {
    assert Pow2(8) == 256;
    assert Pow2(16) == 65536;
    assert Pow2(24) == 0x100_0000;
  }

  /** Only the low 32 bits of a stored counter reach the digest. */
  lemma StoredCounter(n: nat)
    ensures Low(Word64(n)) == Word(n % 0x1_0000_0000)
  {
    hide Low, Bits;
    WordLow(n);
    BitsMod(n, 32);
    Pow2Of32();
  }

  // ----- counting --------------------------------------------------------------------------

  /** The counter holds the number of bits of `n` bytes. */
  predicate Counts(nl: nat, nh: nat, n: nat) {
    && nl == 8 * n % 0x1_0000_0000
    && nh % 0x1_0000_0000 == 8 * n / 0x1_0000_0000 % 0x1_0000_0000
  }

  /** The update of the two counter words for `len` more bytes; the comparison
      detects the carry. */
  lemma CountsMore(nl: nat, nh: nat, n: nat, len: nat)
    requires Counts(nl, nh, n) && len < 0x1_0000_0000_0000_0000
    ensures var l := (nl + len * 8 % 0x1_0000_0000_0000_0000) % 0x1_0000_0000_0000_0000 % 0x1_0000_0000;
      var h := ((if l < nl then nh + 1 else nh) + len / 0x2000_0000) % 0x1_0000_0000_0000_0000;
      Counts(l, h, n + len)
  {
    var q, r := len / 0x2000_0000, len % 0x2000_0000 * 8;
    var l := (nl + len * 8 % 0x1_0000_0000_0000_0000) % 0x1_0000_0000_0000_0000 % 0x1_0000_0000;
    ModMod(len * 8);
    ModMod(nl + len * 8 % 0x1_0000_0000_0000_0000);
    BitsOfBytes(len, q, len % 0x2000_0000);
    ModSum(nl, len * 8 % 0x1_0000_0000_0000_0000, r);
    var carry := if l < nl then 1 else 0;
    ModMod(nh + carry + q);
    Carried(nl, nh, n, len, q, r, l, carry, (nh + carry + q) % 0x1_0000_0000_0000_0000);
  }

  lemma Carried(nl: nat, nh: nat, n: nat, len: nat, q: nat, r: nat, l: nat, carry: nat, h: nat)
    requires Counts(nl, nh, n) && len * 8 == q * 0x1_0000_0000 + r && r < 0x1_0000_0000
    requires l == (nl + r) % 0x1_0000_0000 && carry == (if l < nl then 1 else 0)
    requires h % 0x1_0000_0000 == (nh + carry + q) % 0x1_0000_0000
    ensures Counts(l, h, n + len)
  {
    var top := 8 * n / 0x1_0000_0000;
    assert 8 * n == top * 0x1_0000_0000 + nl;
    assert nl + r == carry * 0x1_0000_0000 + l;
    Quotient(8 * (n + len), top + q + carry, l);
    ModSum(q + carry, nh, top);
  }

  lemma Quotient(x: nat, k: nat, l: nat)
    requires x == k * 0x1_0000_0000 + l && l < 0x1_0000_0000
    ensures x / 0x1_0000_0000 == k && x % 0x1_0000_0000 == l
  {
  }

  lemma BitsOfBytes(len: nat, q: nat, r: nat)
    requires len == q * 0x2000_0000 + r && r < 0x2000_0000
    ensures len * 8 == q * 0x1_0000_0000 + r * 8 && r * 8 < 0x1_0000_0000
    ensures len * 8 % 0x1_0000_0000 == r * 8
  {
  }

  lemma ModMod(x: nat)
    ensures x % 0x1_0000_0000_0000_0000 % 0x1_0000_0000 == x % 0x1_0000_0000
  {
    var k := x / 0x1_0000_0000_0000_0000;
    assert x == k * 0x1_0000_0000 * 0x1_0000_0000 + x % 0x1_0000_0000_0000_0000;
  }

  lemma ModSum(a: nat, x: nat, y: nat)
    requires x % 0x1_0000_0000 == y % 0x1_0000_0000
    ensures (a + x) % 0x1_0000_0000 == (a + y) % 0x1_0000_0000
  {
  }
}
