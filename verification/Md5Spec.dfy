/** The MD5 message digest as section 3 of RFC 1321 defines it, on 32-bit words. */
module Md5Spec {
  datatype State = State(a: bv32, b: bv32, c: bv32, d: bv32)

  const INITIAL := State(0x67452301, 0xefcdab89, 0x98badcfe, 0x10325476)

  datatype Fn = F | G | H | I

  function F32(x: bv32, y: bv32, z: bv32): bv32 {
    (x & y) | (!x & z)
  }

  function G32(x: bv32, y: bv32, z: bv32): bv32 {
    (x & z) | (y & !z)
  }

  function H32(x: bv32, y: bv32, z: bv32): bv32 {
    x ^ y ^ z
  }

  function I32(x: bv32, y: bv32, z: bv32): bv32 {
    y ^ (x | !z)
  }

  function Apply(f: Fn, x: bv32, y: bv32, z: bv32): bv32 {
    match f
    case F => F32(x, y, z)
    case G => G32(x, y, z)
    case H => H32(x, y, z)
    case I => I32(x, y, z)
  }

  /** Rotation by the amounts that occur. */
  function Rotl(x: bv32, s: nat): bv32 {
    match s
    case 4 => (x << 4) | (x >> 28)
    case 5 => (x << 5) | (x >> 27)
    case 6 => (x << 6) | (x >> 26)
    case 7 => (x << 7) | (x >> 25)
    case 9 => (x << 9) | (x >> 23)
    case 10 => (x << 10) | (x >> 22)
    case 11 => (x << 11) | (x >> 21)
    case 12 => (x << 12) | (x >> 20)
    case 14 => (x << 14) | (x >> 18)
    case 15 => (x << 15) | (x >> 17)
    case 16 => (x << 16) | (x >> 16)
    case 17 => (x << 17) | (x >> 15)
    case 20 => (x << 20) | (x >> 12)
    case 21 => (x << 21) | (x >> 11)
    case 22 => (x << 22) | (x >> 10)
    case 23 => (x << 23) | (x >> 9)
    case _ => x
  }

  function Plus32(a: bv32, b: bv32): bv32 {
    a + b
  }

  /** ((a + ((x + t) + f(b, c, d))) <<< s) + b */
  function Op(f: Fn, a: bv32, b: bv32, c: bv32, d: bv32, x: bv32, s: nat, t: bv32): bv32 {
    Plus32(Rotl(Plus32(a, Plus32(Plus32(x, t), Apply(f, b, c, d))), s), b)
  }

  /** The table of sines, four steps at a time. */
  function Sines(g: nat): (bv32, bv32, bv32, bv32)
    requires g < 16
  {
    match g
    case 0 => (0xd76aa478, 0xe8c7b756, 0x242070db, 0xc1bdceee)
    case 1 => (0xf57c0faf, 0x4787c62a, 0xa8304613, 0xfd469501)
    case 2 => (0x698098d8, 0x8b44f7af, 0xffff5bb1, 0x895cd7be)
    case 3 => (0x6b901122, 0xfd987193, 0xa679438e, 0x49b40821)
    case 4 => (0xf61e2562, 0xc040b340, 0x265e5a51, 0xe9b6c7aa)
    case 5 => (0xd62f105d, 0x02441453, 0xd8a1e681, 0xe7d3fbc8)
    case 6 => (0x21e1cde6, 0xc33707d6, 0xf4d50d87, 0x455a14ed)
    case 7 => (0xa9e3e905, 0xfcefa3f8, 0x676f02d9, 0x8d2a4c8a)
    case 8 => (0xfffa3942, 0x8771f681, 0x6d9d6122, 0xfde5380c)
    case 9 => (0xa4beea44, 0x4bdecfa9, 0xf6bb4b60, 0xbebfbc70)
    case 10 => (0x289b7ec6, 0xeaa127fa, 0xd4ef3085, 0x04881d05)
    case 11 => (0xd9d4d039, 0xe6db99e5, 0x1fa27cf8, 0xc4ac5665)
    case 12 => (0xf4292244, 0x432aff97, 0xab9423a7, 0xfc93a039)
    case 13 => (0x655b59c3, 0x8f0ccc92, 0xffeff47d, 0x85845dd1)
    case 14 => (0x6fa87e4f, 0xfe2ce6e0, 0xa3014314, 0x4e0811a1)
    case _ => (0xf7537e82, 0xbd3af235, 0x2ad7d2bb, 0xeb86d391)
  }

  function FnOf(g: nat): Fn
    requires g < 16
  {
    if g < 4 then F else if g < 8 then G else if g < 12 then H else I
  }

  /** The word of the block used in step `i`. */
  function WordOf(i: nat): (k: nat)
    requires i < 64
    ensures k < 16
  {
    if i < 16 then i else if i < 32 then (5 * i + 1) % 16 else if i < 48 then (3 * i + 5) % 16 else 7 * i % 16
  }

  function Shifts(g: nat): (nat, nat, nat, nat)
    requires g < 16
  {
    match FnOf(g)
    case F => (7, 12, 17, 22)
    case G => (5, 9, 14, 20)
    case H => (4, 11, 16, 23)
    case I => (6, 10, 15, 21)
  }

  /** Steps 4g to 4g + 3. */
  function Quad(g: nat, st: State, x: seq<bv32>): State
    requires g < 16 && |x| == 16
  {
    var f, s, t := FnOf(g), Shifts(g), Sines(g);
    var a := Op(f, st.a, st.b, st.c, st.d, x[WordOf(4 * g)], s.0, t.0);
    var d := Op(f, st.d, a, st.b, st.c, x[WordOf(4 * g + 1)], s.1, t.1);
    var c := Op(f, st.c, d, a, st.b, x[WordOf(4 * g + 2)], s.2, t.2);
    var b := Op(f, st.b, c, d, a, x[WordOf(4 * g + 3)], s.3, t.3);
    State(a, b, c, d)
  }

  function Quads(n: nat, st: State, x: seq<bv32>): State
    requires n <= 16 && |x| == 16
  {
    if n == 0 then st else Quad(n - 1, Quads(n - 1, st, x), x)
  }

  function Block(st: State, x: seq<bv32>): State
    requires |x| == 16
  {
    var r := Quads(16, st, x);
    State(Plus32(st.a, r.a), Plus32(st.b, r.b), Plus32(st.c, r.c), Plus32(st.d, r.d))
  }

  // ----- bytes ------------------------------------------------------------------

  function Or(a: bv64, b: bv64): bv64 {
    a | b
  }

  /** A byte moved to byte position `pos`. */
  function At(b: bv8, pos: nat): bv64 {
    if pos == 0 then b as bv64
    else if pos == 1 then (b as bv64) << 8
    else if pos == 2 then (b as bv64) << 16
    else (b as bv64) << 24
  }

  /** The number whose bytes are `s`, low-order first. */
  function LeWord(s: seq<bv8>): bv64
    requires |s| <= 4
  {
    if s == [] then 0 else Or(LeWord(s[..|s| - 1]), At(s[|s| - 1], |s| - 1))
  }

  function Low(x: bv64): bv32 {
    (x & 0xffff_ffff) as bv32
  }

  /** The sixteen words of a block. */
  function Words(m: seq<bv8>): (x: seq<bv32>)
    requires |m| == 64
    ensures |x| == 16
  {
    seq(16, i requires 0 <= i < 16 => Low(LeWord(m[4 * i..4 * i + 4])))
  }

  /** Absorbs the whole blocks of `m`; what is left over is the tail. */
  function Absorb(st: State, m: seq<bv8>): (r: (State, seq<bv8>))
    ensures |r.1| < 64
    decreases |m|
  {
    if |m| < 64 then (st, m) else Absorb(Block(st, Words(m[..64])), m[64..])
  }

  /** The low `k` bits of `n`. */
  function Bits(n: nat, k: nat): bv32 {
    if k == 0 then 0 else Twice(Bits(n / 2, k - 1), n % 2 == 1)
  }

  function Twice(x: bv32, bit: bool): bv32 {
    if bit then (x << 1) | 1 else x << 1
  }

  /** A number as a 32-bit word. */
  function Word(n: nat): bv32 {
    Bits(n, 32)
  }

  function LeBytes(x: bv32): (s: seq<bv8>)
    ensures |s| == 4
  {
    [(x & 0xff) as bv8, ((x >> 8) & 0xff) as bv8, ((x >> 16) & 0xff) as bv8, ((x >> 24) & 0xff) as bv8]
  }

  /** A one bit, then zeros until the length of the message is 56 modulo 64. */
  function Padding(n: nat): (p: seq<bv8>)
    ensures (n + |p|) % 64 == 56 && 1 <= |p| <= 64
  {
    [0x80] + seq((119 - n % 64) % 64, _ => 0)
  }

  /** The words of the last block: 56 bytes, and the length in bits, modulo 2^64,
      as two words, low-order first. */
  function LastWords(rest: seq<bv8>, n: nat): (x: seq<bv32>)
    requires |rest| == 56
    ensures |x| == 16
  {
    seq(14, i requires 0 <= i < 14 => Low(LeWord(rest[4 * i..4 * i + 4])))
    + [Word(8 * n % 0x1_0000_0000), Word(8 * n / 0x1_0000_0000 % 0x1_0000_0000)]
  }

  function Digest(m: seq<bv8>): (d: seq<bv8>)
    ensures |d| == 16
  {
    var (st, rest) := Absorb(INITIAL, m + Padding(|m|));
    AbsorbTail(INITIAL, m + Padding(|m|));
    var r := Block(st, LastWords(rest, |m|));
    LeBytes(r.a) + LeBytes(r.b) + LeBytes(r.c) + LeBytes(r.d)
  }

  // ----- absorbing in pieces --------------------------------------------------------

  /** A message may be cut anywhere. */
  lemma {:induction false} AbsorbAppend(st: State, m: seq<bv8>, e: seq<bv8>)
    ensures var (s, t) := Absorb(st, m); Absorb(st, m + e) == Absorb(s, t + e)
    decreases |m|
  {
    if |m| >= 64 {
      assert (m + e)[..64] == m[..64] && (m + e)[64..] == m[64..] + e;
      AbsorbAppend(Block(st, Words(m[..64])), m[64..], e);
    }
  }

  lemma {:induction false} AbsorbTail(st: State, m: seq<bv8>)
    ensures |Absorb(st, m).1| == |m| % 64
    decreases |m|
  {
    if |m| >= 64 {
      AbsorbTail(Block(st, Words(m[..64])), m[64..]);
      assert |m| % 64 == (|m| - 64) % 64;
    }
  }
}
