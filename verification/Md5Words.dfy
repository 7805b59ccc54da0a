/** The word arithmetic of the digest on 64-bit machine words, and why only the low
    halves matter. */
module Md5Words {
  import opened Md5Spec

  /** Sums under a name, so that proofs can treat them as atoms. */
  function Plus(a: bv64, b: bv64): bv64 {
    a + b
  }

  // ----- the macros ------------------------------------------------------------------

  function F64(x: bv64, y: bv64, z: bv64): bv64 {
    ((y ^ z) & x) ^ z
  }

  function G64(x: bv64, y: bv64, z: bv64): bv64 {
    ((x ^ y) & z) ^ y
  }

  function H64(x: bv64, y: bv64, z: bv64): bv64 {
    x ^ y ^ z
  }

  function I64(x: bv64, y: bv64, z: bv64): bv64 {
    (x | !z) ^ y
  }

  function Select(f: Fn, x: bv64, y: bv64, z: bv64): bv64 {
    match f
    case F => F64(x, y, z)
    case G => G64(x, y, z)
    case H => H64(x, y, z)
    case I => I64(x, y, z)
  }

  function Rotate(x: bv64, s: nat): bv64 {
    match s
    case 4 => (x << 4) | ((x & 0xffff_ffff) >> 28)
    case 5 => (x << 5) | ((x & 0xffff_ffff) >> 27)
    case 6 => (x << 6) | ((x & 0xffff_ffff) >> 26)
    case 7 => (x << 7) | ((x & 0xffff_ffff) >> 25)
    case 9 => (x << 9) | ((x & 0xffff_ffff) >> 23)
    case 10 => (x << 10) | ((x & 0xffff_ffff) >> 22)
    case 11 => (x << 11) | ((x & 0xffff_ffff) >> 21)
    case 12 => (x << 12) | ((x & 0xffff_ffff) >> 20)
    case 14 => (x << 14) | ((x & 0xffff_ffff) >> 18)
    case 15 => (x << 15) | ((x & 0xffff_ffff) >> 17)
    case 16 => (x << 16) | ((x & 0xffff_ffff) >> 16)
    case 17 => (x << 17) | ((x & 0xffff_ffff) >> 15)
    case 20 => (x << 20) | ((x & 0xffff_ffff) >> 12)
    case 21 => (x << 21) | ((x & 0xffff_ffff) >> 11)
    case 22 => (x << 22) | ((x & 0xffff_ffff) >> 10)
    case 23 => (x << 23) | ((x & 0xffff_ffff) >> 9)
    case _ => x
  }

  /** The round macros R0 to R3. */
  function R(f: Fn, a: bv64, b: bv64, c: bv64, d: bv64, k: bv64, s: nat, t: bv64): bv64 {
    Plus(Rotate(Plus(a, Plus(Plus(k, t), Select(f, b, c, d))), s), b)
  }

  // ----- low halves ----------------------------------------------------------------------

  function Wide(a: bv32): bv64 {
    a as bv64
  }

  function Mask(a: bv64): bv64 {
    a & 0xffff_ffff
  }

  lemma SameLow(a: bv64, b: bv64)
    requires Mask(a) == Mask(b)
    ensures Low(a) == Low(b)
  {
  }

  lemma LowIs(a: bv64)
    ensures Low(a) == (a & 0xffff_ffff) as bv32
  {
  }

  lemma WideSum(a: bv64, b: bv64)
    ensures (Plus(a, b) & 0xffff_ffff) as bv32 == ((a & 0xffff_ffff) as bv32) + ((b & 0xffff_ffff) as bv32)
  {
  }

  lemma SumOfLows(a: bv64, b: bv64)
    ensures Plus32((a & 0xffff_ffff) as bv32, (b & 0xffff_ffff) as bv32)
      == ((a & 0xffff_ffff) as bv32) + ((b & 0xffff_ffff) as bv32)
  {
  }

  lemma LowOfSum(a: bv64, b: bv64)
    ensures (Plus(a, b) & 0xffff_ffff) as bv32 == Plus32((a & 0xffff_ffff) as bv32, (b & 0xffff_ffff) as bv32)
  {
    hide Plus, Plus32;
    WideSum(a, b);
    SumOfLows(a, b);
  }

  lemma PlusLow(a: bv64, b: bv64)
    ensures Low(Plus(a, b)) == Plus32(Low(a), Low(b))
  {
    hide Low, Plus, Plus32;
    LowOfSum(a, b);
    LowIs(a);
    LowIs(b);
    var sum := Plus(a, b);
    LowIs(sum);
  }

  lemma Rot4Low(x: bv64)
    ensures Low((x << 4) | ((x & 0xffff_ffff) >> 28)) == (Low(x) << 4) | (Low(x) >> 28)
  {
  }

  lemma Rot5Low(x: bv64)
    ensures Low((x << 5) | ((x & 0xffff_ffff) >> 27)) == (Low(x) << 5) | (Low(x) >> 27)
  {
  }

  lemma Rot6Low(x: bv64)
    ensures Low((x << 6) | ((x & 0xffff_ffff) >> 26)) == (Low(x) << 6) | (Low(x) >> 26)
  {
  }

  lemma Rot7Low(x: bv64)
    ensures Low((x << 7) | ((x & 0xffff_ffff) >> 25)) == (Low(x) << 7) | (Low(x) >> 25)
  {
  }

  lemma Rot9Low(x: bv64)
    ensures Low((x << 9) | ((x & 0xffff_ffff) >> 23)) == (Low(x) << 9) | (Low(x) >> 23)
  {
  }

  lemma Rot10Low(x: bv64)
    ensures Low((x << 10) | ((x & 0xffff_ffff) >> 22)) == (Low(x) << 10) | (Low(x) >> 22)
  {
  }

  lemma Rot11Low(x: bv64)
    ensures Low((x << 11) | ((x & 0xffff_ffff) >> 21)) == (Low(x) << 11) | (Low(x) >> 21)
  {
  }

  lemma Rot12Low(x: bv64)
    ensures Low((x << 12) | ((x & 0xffff_ffff) >> 20)) == (Low(x) << 12) | (Low(x) >> 20)
  {
  }

  lemma Rot14Low(x: bv64)
    ensures Low((x << 14) | ((x & 0xffff_ffff) >> 18)) == (Low(x) << 14) | (Low(x) >> 18)
  {
  }

  lemma Rot15Low(x: bv64)
    ensures Low((x << 15) | ((x & 0xffff_ffff) >> 17)) == (Low(x) << 15) | (Low(x) >> 17)
  {
  }

  lemma Rot16Low(x: bv64)
    ensures Low((x << 16) | ((x & 0xffff_ffff) >> 16)) == (Low(x) << 16) | (Low(x) >> 16)
  {
  }

  lemma Rot17Low(x: bv64)
    ensures Low((x << 17) | ((x & 0xffff_ffff) >> 15)) == (Low(x) << 17) | (Low(x) >> 15)
  {
  }

  lemma Rot20Low(x: bv64)
    ensures Low((x << 20) | ((x & 0xffff_ffff) >> 12)) == (Low(x) << 20) | (Low(x) >> 12)
  {
  }

  lemma Rot21Low(x: bv64)
    ensures Low((x << 21) | ((x & 0xffff_ffff) >> 11)) == (Low(x) << 21) | (Low(x) >> 11)
  {
  }

  lemma Rot22Low(x: bv64)
    ensures Low((x << 22) | ((x & 0xffff_ffff) >> 10)) == (Low(x) << 22) | (Low(x) >> 10)
  {
  }

  lemma Rot23Low(x: bv64)
    ensures Low((x << 23) | ((x & 0xffff_ffff) >> 9)) == (Low(x) << 23) | (Low(x) >> 9)
  {
  }

  lemma RotateLow(x: bv64, s: nat)
    ensures s in {4, 5, 6, 7, 9, 10, 11, 12, 14, 15, 16, 17, 20, 21, 22, 23} ==> Low(Rotate(x, s)) == Rotl(Low(x), s)
  {
    hide Low;
    match s
    case 4 => Rot4Low(x);
    case 5 => Rot5Low(x);
    case 6 => Rot6Low(x);
    case 7 => Rot7Low(x);
    case 9 => Rot9Low(x);
    case 10 => Rot10Low(x);
    case 11 => Rot11Low(x);
    case 12 => Rot12Low(x);
    case 14 => Rot14Low(x);
    case 15 => Rot15Low(x);
    case 16 => Rot16Low(x);
    case 17 => Rot17Low(x);
    case 20 => Rot20Low(x);
    case 21 => Rot21Low(x);
    case 22 => Rot22Low(x);
    case 23 => Rot23Low(x);
    case _ =>
  }

  lemma FLow(x: bv64, y: bv64, z: bv64)
    ensures Low(F64(x, y, z)) == F32(Low(x), Low(y), Low(z))
  {
  }

  lemma GLow(x: bv64, y: bv64, z: bv64)
    ensures Low(G64(x, y, z)) == G32(Low(x), Low(y), Low(z))
  {
  }

  lemma HLow(x: bv64, y: bv64, z: bv64)
    ensures Low(H64(x, y, z)) == H32(Low(x), Low(y), Low(z))
  {
  }

  lemma ILow(x: bv64, y: bv64, z: bv64)
    ensures Low(I64(x, y, z)) == I32(Low(x), Low(y), Low(z))
  {
  }

  /** The shortened auxiliary functions are, in the low half, those of the RFC. */
  lemma SelectLow(f: Fn, x: bv64, y: bv64, z: bv64)
    ensures Low(Select(f, x, y, z)) == Apply(f, Low(x), Low(y), Low(z))
  {
    hide Low, F64, G64, H64, I64, F32, G32, H32, I32;
    FLow(x, y, z);
    GLow(x, y, z);
    HLow(x, y, z);
    ILow(x, y, z);
  }

  predicate IsShift(s: nat) {
    s in {4, 5, 6, 7, 9, 10, 11, 12, 14, 15, 16, 17, 20, 21, 22, 23}
  }

  /** One round macro, seen through the low halves, is one step of the RFC. */
  lemma RLow(f: Fn, a: bv64, b: bv64, c: bv64, d: bv64, k: bv64, s: nat, t: bv64)
    requires IsShift(s)
    ensures Low(R(f, a, b, c, d, k, s, t)) == Op(f, Low(a), Low(b), Low(c), Low(d), Low(k), s, Low(t))
  {
    hide Low, Plus, Plus32, Select, Rotate, Rotl, Apply;
    var sel := Select(f, b, c, d);
    var sum := Plus(a, Plus(Plus(k, t), sel));
    PlusLow(k, t);
    PlusLow(Plus(k, t), sel);
    PlusLow(a, Plus(Plus(k, t), sel));
    SelectLow(f, b, c, d);
    RotateLow(sum, s);
    PlusLow(Rotate(sum, s), b);
  }
}
