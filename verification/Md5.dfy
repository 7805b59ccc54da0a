/** The digest as computed: bytes are packed into the words of a buffer as they
    arrive, in pieces of any size. */
module Md5 {
  import opened Md5Spec
  import opened Md5Words
  import opened Md5Count

  // ----- packing bytes into words ------------------------------------------------

  lemma OrZero(x: bv64)
    ensures Or(0, x) == x && Or(x, 0) == x
  {
  }

  lemma OrComm(x: bv64, y: bv64)
    ensures Or(x, y) == Or(y, x)
  {
  }

  lemma OrAssoc(x: bv64, y: bv64, z: bv64)
    ensures Or(Or(x, y), z) == Or(x, Or(y, z))
  {
  }

  lemma LeWordStep(s: seq<bv8>, b: bv8)
    requires |s| < 4
    ensures LeWord(s + [b]) == Or(LeWord(s), At(b, |s|))
  {
    assert (s + [b])[..|s|] == s;
  }

  lemma LeWordOne(b: bv8)
    ensures LeWord([b]) == At(b, 0)
  {
    LeWordStep([], b);
    assert [] + [b] == [b];
    OrZero(At(b, 0));
  }

  /** `c2l`: the next four bytes as a word. */
  method C2l(c: seq<bv8>, pos: nat) returns (l: bv64)
    requires pos + 4 <= |c|
    ensures l == LeWord(c[pos..pos + 4])
  {
    hide Or, At;
    l := At(c[pos], 0);
    LeWordOne(c[pos]);
    l := Or(l, At(c[pos + 1], 1));
    LeWordStep([c[pos]], c[pos + 1]);
    l := Or(l, At(c[pos + 2], 2));
    LeWordStep([c[pos]] + [c[pos + 1]], c[pos + 2]);
    l := Or(l, At(c[pos + 3], 3));
    LeWordStep([c[pos]] + [c[pos + 1]] + [c[pos + 2]], c[pos + 3]);
    assert c[pos..pos + 4] == [c[pos]] + [c[pos + 1]] + [c[pos + 2]] + [c[pos + 3]];
  }

  /** Adding the next byte of `c` to a word that holds `head` and the bytes before. */
  lemma NextByte(head: seq<bv8>, c: seq<bv8>, pos: nat, l: bv64)
    requires pos < |c| && |head| + pos < 4
    requires |head| + pos > 0 ==> l == LeWord(head + c[..pos])
    ensures LeWord(head + c[..pos + 1]) == if |head| + pos == 0 then At(c[pos], 0) else Or(l, At(c[pos], |head| + pos))
  {
    hide Or, At, LeWord;
    assert head + c[..pos + 1] == head + c[..pos] + [c[pos]];
    LeWordStep(head + c[..pos], c[pos]);
    if |head| + pos == 0 {
      assert head + c[..pos + 1] == [c[pos]];
      LeWordOne(c[pos]);
    }
  }

  /** `p_c2l`: completes a word that holds `n` bytes; the cases fall through. */
  method PC2l(c: seq<bv8>, l0: bv64, n: nat, ghost head: seq<bv8>) returns (l: bv64, pos: nat)
    requires n < 4 && 4 - n <= |c| && |head| == n && (n > 0 ==> l0 == LeWord(head))
    ensures pos == 4 - n && l == LeWord(head + c[..4 - n])
  {
    hide Or, At, LeWord;
    l, pos := l0, 0;
    assert head + c[..0] == head;
    if n == 0 {
      NextByte(head, c, pos, l);
      l := At(c[pos], 0);
      pos := pos + 1;
    }
    if n <= 1 {
      NextByte(head, c, pos, l);
      l := Or(l, At(c[pos], 1));
      pos := pos + 1;
    }
    if n <= 2 {
      NextByte(head, c, pos, l);
      l := Or(l, At(c[pos], 2));
      pos := pos + 1;
    }
    NextByte(head, c, pos, l);
    l := Or(l, At(c[pos], 3));
    pos := pos + 1;
  }

  /** `p_c2l_p`: adds `len` bytes to a word that holds `sc`, short of filling it. */
  method PC2lP(c: seq<bv8>, l0: bv64, sc: nat, len: nat, ghost head: seq<bv8>) returns (l: bv64)
    requires 0 < len <= |c| && sc + len < 4 && |head| == sc && (sc > 0 ==> l0 == LeWord(head))
    ensures l == LeWord(head + c[..len])
  {
    hide Or, At, LeWord;
    l := l0;
    var left, pos: nat := len, 0;
    assert head + c[..0] == head;
    if sc == 0 {
      NextByte(head, c, pos, l);
      l := At(c[pos], 0);
      pos, left := pos + 1, left - 1;
      if left == 0 {
        return;
      }
    }
    if sc <= 1 {
      NextByte(head, c, pos, l);
      l := Or(l, At(c[pos], 1));
      pos, left := pos + 1, left - 1;
      if left == 0 {
        return;
      }
    }
    NextByte(head, c, pos, l);
    l := Or(l, At(c[pos], 2));
  }

  /** `c2l_p`: the next `n` bytes as a word, taken from the last one back. */
  method C2lP(c: seq<bv8>, pos: nat, n: nat) returns (l: bv64)
    requires n < 4 && pos + n <= |c|
    ensures l == LeWord(c[pos..pos + n])
  {
    hide Or, At;
    l := 0;
    if n >= 3 {
      l := At(c[pos + 2], 2);
    }
    if n >= 2 {
      l := Or(l, At(c[pos + 1], 1));
    }
    if n >= 1 {
      l := Or(l, At(c[pos], 0));
    }
    Backwards(c[pos..pos + n], l);
  }

  lemma Backwards(s: seq<bv8>, l: bv64)
    requires |s| < 4
    requires l == match |s|
      case 0 => 0
      case 1 => Or(0, At(s[0], 0))
      case 2 => Or(Or(0, At(s[1], 1)), At(s[0], 0))
      case _ => Or(Or(At(s[2], 2), At(s[1], 1)), At(s[0], 0))
    ensures l == LeWord(s)
  {
    hide Or, At;
    if |s| >= 1 {
      LeWordOne(s[0]);
      OrZero(At(s[0], 0));
      assert s[..1] == [s[0]];
    }
    if |s| >= 2 {
      OrZero(At(s[1], 1));
      LeWordStep([s[0]], s[1]);
      assert s[..2] == [s[0]] + [s[1]];
      OrComm(At(s[1], 1), At(s[0], 0));
    }
    if |s| == 3 {
      LeWordStep([s[0]] + [s[1]], s[2]);
      assert s == [s[0]] + [s[1]] + [s[2]];
      OrAssoc(At(s[2], 2), At(s[1], 1), At(s[0], 0));
      OrComm(At(s[2], 2), Or(At(s[1], 1), At(s[0], 0)));
    } else {
      assert s[..|s|] == s;
    }
  }

  // ----- the buffer of words -------------------------------------------------------

  /** The words hold the bytes `t`; the last word may be partial, with zeros above. */
  ghost predicate Held(p: seq<bv64>, t: seq<bv8>) {
    && |p| == 16 && |t| <= 64
    && (forall i :: 0 <= i < |t| / 4 ==> p[i] == LeWord(t[4 * i..4 * i + 4]))
    && (|t| % 4 != 0 ==> p[|t| / 4] == LeWord(t[|t| / 4 * 4..]))
  }

  function LowWords(p: seq<bv64>): (x: seq<bv32>)
    requires |p| == 16
    ensures |x| == 16
  {
    seq(16, i requires 0 <= i < 16 => Low(p[i]))
  }

  lemma HeldBlock(p: seq<bv64>, t: seq<bv8>)
    requires Held(p, t) && |t| == 64
    ensures LowWords(p) == Words(t)
  {
  }

  function Low4(a: bv64, b: bv64, c: bv64, d: bv64): State {
    State(Low(a), Low(b), Low(c), Low(d))
  }

  /** Four of the macro calls of the compression function. */
  method FourSteps(ghost g: nat, ghost x: seq<bv64>, ghost st0: State, ghost before: State, f: Fn,
                   a0: bv64, b0: bv64, c0: bv64, d0: bv64,
                   k0: bv64, k1: bv64, k2: bv64, k3: bv64,
                   s0: nat, s1: nat, s2: nat, s3: nat,
                   t0: bv32, t1: bv32, t2: bv32, t3: bv32)
    returns (a: bv64, b: bv64, c: bv64, d: bv64)
    requires |x| == 16 && g < 16 && before == Low4(a0, b0, c0, d0) && before == Quads(g, st0, LowWords(x))
    requires f == FnOf(g) && (s0, s1, s2, s3) == Shifts(g)
    requires k0 == x[WordOf(4 * g)] && k1 == x[WordOf(4 * g + 1)] && k2 == x[WordOf(4 * g + 2)]
      && k3 == x[WordOf(4 * g + 3)]
    requires (t0, t1, t2, t3) == Sines(g)
    ensures Low4(a, b, c, d) == Quads(g + 1, st0, LowWords(x))
  {
    hide Low, R, Op, Sines, WordOf, Wide;
    LowWide(t0);
    LowWide(t1);
    LowWide(t2);
    LowWide(t3);
    a := R(f, a0, b0, c0, d0, k0, s0, Wide(t0));
    RLow(f, a0, b0, c0, d0, k0, s0, Wide(t0));
    d := R(f, d0, a, b0, c0, k1, s1, Wide(t1));
    RLow(f, d0, a, b0, c0, k1, s1, Wide(t1));
    c := R(f, c0, d, a, b0, k2, s2, Wide(t2));
    RLow(f, c0, d, a, b0, k2, s2, Wide(t2));
    b := R(f, b0, c, d, a, k3, s3, Wide(t3));
    RLow(f, b0, c, d, a, k3, s3, Wide(t3));
  }

  lemma LowWide(t: bv32)
    ensures Low(Wide(t)) == t
  {
  }

  /** The words of a block in the order of each round. */
  lemma Order0()
    ensures WordOf(0) == 0 && WordOf(1) == 1 && WordOf(2) == 2 && WordOf(3) == 3
    ensures WordOf(4) == 4 && WordOf(5) == 5 && WordOf(6) == 6 && WordOf(7) == 7
    ensures WordOf(8) == 8 && WordOf(9) == 9 && WordOf(10) == 10 && WordOf(11) == 11
    ensures WordOf(12) == 12 && WordOf(13) == 13 && WordOf(14) == 14 && WordOf(15) == 15
    ensures forall g :: 0 <= g < 4 ==> FnOf(g) == F && Shifts(g) == (7, 12, 17, 22)
  {
  }

  lemma Order1()
    ensures WordOf(16) == 1 && WordOf(17) == 6 && WordOf(18) == 11 && WordOf(19) == 0
    ensures WordOf(20) == 5 && WordOf(21) == 10 && WordOf(22) == 15 && WordOf(23) == 4
    ensures WordOf(24) == 9 && WordOf(25) == 14 && WordOf(26) == 3 && WordOf(27) == 8
    ensures WordOf(28) == 13 && WordOf(29) == 2 && WordOf(30) == 7 && WordOf(31) == 12
    ensures forall g :: 4 <= g < 8 ==> FnOf(g) == G && Shifts(g) == (5, 9, 14, 20)
  {
  }

  lemma Order2()
    ensures WordOf(32) == 5 && WordOf(33) == 8 && WordOf(34) == 11 && WordOf(35) == 14
    ensures WordOf(36) == 1 && WordOf(37) == 4 && WordOf(38) == 7 && WordOf(39) == 10
    ensures WordOf(40) == 13 && WordOf(41) == 0 && WordOf(42) == 3 && WordOf(43) == 6
    ensures WordOf(44) == 9 && WordOf(45) == 12 && WordOf(46) == 15 && WordOf(47) == 2
    ensures forall g :: 8 <= g < 12 ==> FnOf(g) == H && Shifts(g) == (4, 11, 16, 23)
  {
  }

  lemma Order3()
    ensures WordOf(48) == 0 && WordOf(49) == 7 && WordOf(50) == 14 && WordOf(51) == 5
    ensures WordOf(52) == 12 && WordOf(53) == 3 && WordOf(54) == 10 && WordOf(55) == 1
    ensures WordOf(56) == 8 && WordOf(57) == 15 && WordOf(58) == 6 && WordOf(59) == 13
    ensures WordOf(60) == 4 && WordOf(61) == 11 && WordOf(62) == 2 && WordOf(63) == 9
    ensures forall g :: 12 <= g < 16 ==> FnOf(g) == I && Shifts(g) == (6, 10, 15, 21)
  {
  }

  lemma WordSlices(tail: seq<bv8>, d: seq<bv8>, full: seq<bv8>, at: nat)
    requires at <= |tail| && |tail + d| == at + 4 && tail + d <= full
    ensures tail[at..] + d == full[at..at + 4]
  {
    assert (tail + d)[at..] == tail[at..] + d;
  }

  class Md5Ctx {
    var A: bv64
    var B: bv64
    var C: bv64
    var D: bv64
    var Nl: nat
    var Nh: nat
    const data: array<bv64>
    var num: nat

    ghost function LowState(): State
      reads this
    {
      Low4(A, B, C, D)
    }

    /** The context after the bytes `m`. */
    ghost predicate Valid(m: seq<bv8>)
      reads this, data
    {
      var (st, tail) := Absorb(INITIAL, m);
      && data.Length == 16 && LowState() == st && num == |tail|
      && Held(data[..], tail)
      && Counts(Nl, Nh, |m|)
    }

    method Round0(ghost s: State, a0: bv64, b0: bv64, c0: bv64, d0: bv64, x: seq<bv64>)
      returns (a: bv64, b: bv64, c: bv64, d: bv64)
      requires |x| == 16 && Low4(a0, b0, c0, d0) == Quads(0, s, LowWords(x))
      ensures Low4(a, b, c, d) == Quads(4, s, LowWords(x))
    {
      hide Low, Low4, Quads, LowWords, WordOf, FnOf, Shifts;
      Order0();
      a, b, c, d := a0, b0, c0, d0;
      a, b, c, d := FourSteps(0, x, s, Low4(a, b, c, d), F, a, b, c, d, x[0], x[1], x[2], x[3], 7, 12, 17, 22,
        0xd76aa478, 0xe8c7b756, 0x242070db, 0xc1bdceee);
      a, b, c, d := FourSteps(1, x, s, Low4(a, b, c, d), F, a, b, c, d, x[4], x[5], x[6], x[7], 7, 12, 17, 22,
        0xf57c0faf, 0x4787c62a, 0xa8304613, 0xfd469501);
      a, b, c, d := FourSteps(2, x, s, Low4(a, b, c, d), F, a, b, c, d, x[8], x[9], x[10], x[11], 7, 12, 17, 22,
        0x698098d8, 0x8b44f7af, 0xffff5bb1, 0x895cd7be);
      a, b, c, d := FourSteps(3, x, s, Low4(a, b, c, d), F, a, b, c, d, x[12], x[13], x[14], x[15], 7, 12, 17, 22,
        0x6b901122, 0xfd987193, 0xa679438e, 0x49b40821);
    }

    method Round1(ghost s: State, a0: bv64, b0: bv64, c0: bv64, d0: bv64, x: seq<bv64>)
      returns (a: bv64, b: bv64, c: bv64, d: bv64)
      requires |x| == 16 && Low4(a0, b0, c0, d0) == Quads(4, s, LowWords(x))
      ensures Low4(a, b, c, d) == Quads(8, s, LowWords(x))
    {
      hide Low, Low4, Quads, LowWords, WordOf, FnOf, Shifts;
      Order1();
      a, b, c, d := a0, b0, c0, d0;
      a, b, c, d := FourSteps(4, x, s, Low4(a, b, c, d), G, a, b, c, d, x[1], x[6], x[11], x[0], 5, 9, 14, 20,
        0xf61e2562, 0xc040b340, 0x265e5a51, 0xe9b6c7aa);
      a, b, c, d := FourSteps(5, x, s, Low4(a, b, c, d), G, a, b, c, d, x[5], x[10], x[15], x[4], 5, 9, 14, 20,
        0xd62f105d, 0x02441453, 0xd8a1e681, 0xe7d3fbc8);
      a, b, c, d := FourSteps(6, x, s, Low4(a, b, c, d), G, a, b, c, d, x[9], x[14], x[3], x[8], 5, 9, 14, 20,
        0x21e1cde6, 0xc33707d6, 0xf4d50d87, 0x455a14ed);
      a, b, c, d := FourSteps(7, x, s, Low4(a, b, c, d), G, a, b, c, d, x[13], x[2], x[7], x[12], 5, 9, 14, 20,
        0xa9e3e905, 0xfcefa3f8, 0x676f02d9, 0x8d2a4c8a);
    }

    method Round2(ghost s: State, a0: bv64, b0: bv64, c0: bv64, d0: bv64, x: seq<bv64>)
      returns (a: bv64, b: bv64, c: bv64, d: bv64)
      requires |x| == 16 && Low4(a0, b0, c0, d0) == Quads(8, s, LowWords(x))
      ensures Low4(a, b, c, d) == Quads(12, s, LowWords(x))
    {
      hide Low, Low4, Quads, LowWords, WordOf, FnOf, Shifts;
      Order2();
      a, b, c, d := a0, b0, c0, d0;
      a, b, c, d := FourSteps(8, x, s, Low4(a, b, c, d), H, a, b, c, d, x[5], x[8], x[11], x[14], 4, 11, 16, 23,
        0xfffa3942, 0x8771f681, 0x6d9d6122, 0xfde5380c);
      a, b, c, d := FourSteps(9, x, s, Low4(a, b, c, d), H, a, b, c, d, x[1], x[4], x[7], x[10], 4, 11, 16, 23,
        0xa4beea44, 0x4bdecfa9, 0xf6bb4b60, 0xbebfbc70);
      a, b, c, d := FourSteps(10, x, s, Low4(a, b, c, d), H, a, b, c, d, x[13], x[0], x[3], x[6], 4, 11, 16, 23,
        0x289b7ec6, 0xeaa127fa, 0xd4ef3085, 0x04881d05);
      a, b, c, d := FourSteps(11, x, s, Low4(a, b, c, d), H, a, b, c, d, x[9], x[12], x[15], x[2], 4, 11, 16, 23,
        0xd9d4d039, 0xe6db99e5, 0x1fa27cf8, 0xc4ac5665);
    }

    method Round3(ghost s: State, a0: bv64, b0: bv64, c0: bv64, d0: bv64, x: seq<bv64>)
      returns (a: bv64, b: bv64, c: bv64, d: bv64)
      requires |x| == 16 && Low4(a0, b0, c0, d0) == Quads(12, s, LowWords(x))
      ensures Low4(a, b, c, d) == Quads(16, s, LowWords(x))
    {
      hide Low, Low4, Quads, LowWords, WordOf, FnOf, Shifts;
      Order3();
      a, b, c, d := a0, b0, c0, d0;
      a, b, c, d := FourSteps(12, x, s, Low4(a, b, c, d), I, a, b, c, d, x[0], x[7], x[14], x[5], 6, 10, 15, 21,
        0xf4292244, 0x432aff97, 0xab9423a7, 0xfc93a039);
      a, b, c, d := FourSteps(13, x, s, Low4(a, b, c, d), I, a, b, c, d, x[12], x[3], x[10], x[1], 6, 10, 15, 21,
        0x655b59c3, 0x8f0ccc92, 0xffeff47d, 0x85845dd1);
      a, b, c, d := FourSteps(14, x, s, Low4(a, b, c, d), I, a, b, c, d, x[8], x[15], x[6], x[13], 6, 10, 15, 21,
        0x6fa87e4f, 0xfe2ce6e0, 0xa3014314, 0x4e0811a1);
      a, b, c, d := FourSteps(15, x, s, Low4(a, b, c, d), I, a, b, c, d, x[4], x[11], x[2], x[9], 6, 10, 15, 21,
        0xf7537e82, 0xbd3af235, 0x2ad7d2bb, 0xeb86d391);
    }

    /** The compression function on the words in `data`. */
    method Block()
      requires data.Length == 16
      modifies this`A, this`B, this`C, this`D
      ensures LowState() == Md5Spec.Block(old(LowState()), LowWords(data[..]))
    {
      hide Low, Quads, LowWords, Plus;
      var x := data[..];
      ghost var s := LowState();
      var a, b, c, d := A, B, C, D;
      QuadsStart(s, LowWords(x));
      a, b, c, d := Round0(s, a, b, c, d, x);
      a, b, c, d := Round1(s, a, b, c, d, x);
      a, b, c, d := Round2(s, a, b, c, d, x);
      a, b, c, d := Round3(s, a, b, c, d, x);
      PlusMasked(A, a);
      PlusMasked(B, b);
      PlusMasked(C, c);
      PlusMasked(D, d);
      A := Plus(A, Mask(a));
      B := Plus(B, Mask(b));
      C := Plus(C, Mask(c));
      D := Plus(D, Mask(d));
    }

    /** Loads the words `sw0` to `ew`, four bytes each, from `pos0`. */
    method LoadWords(d: seq<bv8>, pos0: nat, sw0: nat, ew: nat, ghost full: seq<bv8>) returns (pos: nat)
      requires data.Length == 16 && sw0 <= ew <= 16 && 4 * ew <= |full| && pos0 + 4 * (ew - sw0) <= |d|
      requires full[4 * sw0..4 * ew] == d[pos0..pos0 + 4 * (ew - sw0)]
      requires Loaded(data[..], full, sw0)
      modifies data
      ensures Loaded(data[..], full, ew) && pos == pos0 + 4 * (ew - sw0)
    {
      hide LeWord;
      pos := pos0;
      var sw := sw0;
      while sw < ew
        invariant sw0 <= sw <= ew && pos == pos0 + 4 * (sw - sw0)
        invariant Loaded(data[..], full, sw)
      {
        var l := C2l(d, pos);
        SubSlice(full, 4 * sw0, 4 * ew, d, pos0, 4 * sw, 4);
        pos := pos + 4;
        data[sw] := l;
        sw := sw + 1;
      }
    }

    /** Completes the word that the buffer holds in part. */
    method CompleteWord(d: seq<bv8>, sw: nat, sc: nat, ghost tail: seq<bv8>, ghost full: seq<bv8>) returns (pos: nat)
      requires Held(data[..], tail) && |tail| < 64 && sw == |tail| / 4 && sc == |tail| % 4
      requires sc + |d| >= 4 && tail + d[..4 - sc] <= full
      modifies data
      ensures Loaded(data[..], full, sw + 1) && pos == 4 - sc
    {
      hide LeWord;
      HeldPart(data[..], tail);
      LoadedExtend(data[..], tail, full);
      var l := data[sw];
      l, pos := PC2l(d, l, sc, tail[4 * sw..]);
      WordSlices(tail, d[..4 - sc], full, 4 * sw);
      data[sw] := l;
    }

    /** Completes the block that `data` holds in part with the first bytes of `d`. */
    method FillBlock(d: seq<bv8>, ghost tail: seq<bv8>)
      requires Held(data[..], tail) && num == |tail| && 0 < num < 64 && num + |d| >= 64
      modifies data
      ensures Held(data[..], tail + d[..64 - num])
    {
      hide LeWord;
      ghost var full := tail + d[..64 - num];
      var sw, sc := num / 4, num % 4;
      assert tail + d[..4 - sc] <= full;
      var pos := CompleteWord(d, sw, sc, tail, full);
      InAppended(tail, d[..64 - num], 4 * (sw + 1), 64);
      assert d[..64 - num][pos..64 - num] == d[pos..64 - num];
      pos := LoadWords(d, pos, sw + 1, 16, full);
    }

    /** Adds `d` within the last word. */
    method AddToWord(d: seq<bv8>, sw: nat, sc: nat, ghost tail: seq<bv8>)
      requires Held(data[..], tail) && |tail| < 64 && sw == |tail| / 4 && sc == |tail| % 4
      requires d != [] && sc + |d| < 4
      modifies data
      ensures Held(data[..], tail + d)
    {
      hide LeWord;
      ghost var full := tail + d;
      HeldPart(data[..], tail);
      LoadedExtend(data[..], tail, full);
      var l := data[sw];
      l := PC2lP(d, l, sc, |d|, tail[4 * sw..]);
      assert tail[4 * sw..] + d[..|d|] == full[4 * sw..];
      data[sw] := l;
      assert |full| / 4 == sw;
    }

    /** Completes the last word with the beginning of `d` and loads the rest. */
    method AddWords(d: seq<bv8>, sw: nat, sc: nat, ew: nat, ec: nat, ghost tail: seq<bv8>)
      requires Held(data[..], tail) && |tail + d| < 64 && sw == |tail| / 4 && sc == |tail| % 4
      requires sc + |d| >= 4 && ew == |tail + d| / 4 && ec == |tail + d| % 4
      modifies data
      ensures Held(data[..], tail + d)
    {
      hide LeWord;
      ghost var full := tail + d;
      assert tail + d[..4 - sc] <= full;
      var pos := CompleteWord(d, sw, sc, tail, full);
      InAppended(tail, d, 4 * (sw + 1), 4 * ew);
      pos := LoadWords(d, pos, sw + 1, ew, full);
      if ec != 0 {
        var l := C2lP(d, pos, ec);
        InAppended(tail, d, 4 * ew, |full|);
        assert full[4 * ew..|full|] == full[4 * ew..] && pos + ec == |d|;
        data[ew] := l;
      }
    }

    /** Adds all of `d` to the buffer, which it does not fill. */
    method AddPartial(d: seq<bv8>, ghost tail: seq<bv8>)
      requires Held(data[..], tail) && num == |tail| && 0 < num && num + |d| < 64 && d != []
      modifies this`num, data
      ensures Held(data[..], tail + d) && num == |tail + d|
    {
      var sw, sc := num / 4, num % 4;
      num := num + |d|;
      if sc + |d| < 4 {
        AddToWord(d, sw, sc, tail);
      } else {
        AddWords(d, sw, sc, num / 4, num % 4, tail);
      }
    }

    /** Loads 64 bytes from `pos0`. */
    method LoadBlock(d: seq<bv8>, pos0: nat)
      requires data.Length == 16 && pos0 + 64 <= |d|
      modifies data
      ensures Held(data[..], d[pos0..pos0 + 64])
    {
      hide LeWord;
      ghost var full := d[pos0..pos0 + 64];
      assert full[0..64] == full;
      var pos := LoadWords(d, pos0, 0, 16, full);
    }

    /** Keeps what is left, short of a block, for later. */
    method StoreRest(d: seq<bv8>, pos0: nat)
      requires data.Length == 16 && pos0 <= |d| < pos0 + 64
      modifies this`num, data
      ensures Held(data[..], d[pos0..]) && num == |d| - pos0
    {
      hide LeWord;
      ghost var full := d[pos0..];
      var sc := |d| - pos0;
      num := sc;
      if sc != 0 {
        var sw := sc / 4;
        sc := sc % 4;
        assert full[0..4 * sw] == d[pos0..pos0 + 4 * sw];
        var pos := LoadWords(d, pos0, 0, sw, full);
        var l := C2lP(d, pos, sc);
        assert d[pos..pos + sc] == full[4 * sw..];
        data[sw] := l;
      }
    }

    constructor ()
      ensures Valid([]) && fresh(data)
    {
      A, B, C, D := Wide(0x67452301), Wide(0xefcdab89), Wide(0x98badcfe), Wide(0x10325476);
      Nl, Nh, num := 0, 0, 0;
      data := new bv64[16];
      new;
      LowWide(0x67452301);
      LowWide(0xefcdab89);
      LowWide(0x98badcfe);
      LowWide(0x10325476);
    }

    /** `MD5_Init` on a context in use. */
    method Restart()
      requires data.Length == 16
      modifies this
      ensures Valid([])
    {
      A, B, C, D := Wide(0x67452301), Wide(0xefcdab89), Wide(0x98badcfe), Wide(0x10325476);
      Nl, Nh, num := 0, 0, 0;
      LowWide(0x67452301);
      LowWide(0xefcdab89);
      LowWide(0x98badcfe);
      LowWide(0x10325476);
    }

    /** Counts `len` more bytes. */
    method Count(len: nat, ghost n: nat)
      requires Counts(Nl, Nh, n) && len < 0x1_0000_0000_0000_0000
      modifies this`Nl, this`Nh
      ensures Counts(Nl, Nh, n + len)
    {
      CountsMore(Nl, Nh, n, len);
      var l := (Nl + len * 8 % 0x1_0000_0000_0000_0000) % 0x1_0000_0000_0000_0000 % 0x1_0000_0000;
      Nh := ((if l < Nl then Nh + 1 else Nh) + len / 0x2000_0000) % 0x1_0000_0000_0000_0000;
      Nl := l;
    }

    /** Completes the block that is held in part, and takes it in. */
    method CompleteBlock(d: seq<bv8>, ghost tail: seq<bv8>) returns (pos: nat)
      requires data.Length == 16 && Held(data[..], tail) && num == |tail| && 0 < num < 64 && num + |d| >= 64
      modifies this`A, this`B, this`C, this`D, this`num, data
      ensures pos <= |d| && num == 0 && Absorb(LowState(), d[pos..]) == Absorb(old(LowState()), tail + d)
    {
      hide Words, Held, Md5Spec.Block;
      FillBlock(d, tail);
      HeldBlock(data[..], tail + d[..64 - num]);
      Block();
      assert (tail + d)[..64] == tail + d[..64 - num] && (tail + d)[64..] == d[64 - num..];
      pos := 64 - num;
      num := 0;
    }

    /** Takes in whole blocks from `pos0` on, as many as there are. */
    method TakeBlocks(d: seq<bv8>, pos0: nat) returns (pos: nat)
      requires data.Length == 16 && pos0 <= |d|
      modifies this`A, this`B, this`C, this`D, data
      ensures pos0 <= pos <= |d| < pos + 64 && Absorb(LowState(), d[pos..]) == Absorb(old(LowState()), d[pos0..])
    {
      hide Words, Held, Md5Spec.Block;
      pos := pos0;
      while |d| - pos >= 64
        invariant pos0 <= pos <= |d| && Absorb(LowState(), d[pos..]) == Absorb(old(LowState()), d[pos0..])
      {
        LoadBlock(d, pos);
        HeldBlock(data[..], d[pos..pos + 64]);
        assert d[pos..][..64] == d[pos..pos + 64] && d[pos..][64..] == d[pos + 64..];
        Block();
        pos := pos + 64;
      }
    }

    /** Takes in the bytes `d` after the bytes `m`. */
    method Update(d: seq<bv8>, ghost m: seq<bv8>)
      requires Valid(m) && |d| < 0x1_0000_0000_0000_0000
      modifies this, data
      ensures Valid(m + d)
    {
      hide Counts, Words, Held, Md5Spec.Block;
      if |d| == 0 {
        assert m + d == m;
        return;
      }
      Count(|d|, |m|);
      ghost var goal := Absorb(INITIAL, m + d);
      ghost var tail := Absorb(INITIAL, m).1;
      AbsorbAppend(INITIAL, m, d);
      var pos := 0;
      if num != 0 {
        if num + |d| < 64 {
          AddPartial(d, tail);
          return;
        }
        pos := CompleteBlock(d, tail);
      } else {
        assert tail + d == d[0..];
      }
      pos := TakeBlocks(d, pos);
      StoreRest(d, pos);
    }

    /** The byte 0x80 behind the buffered bytes, and zeros to the end of its word. */
    method CloseWord(i: nat, sc: nat, ghost tail: seq<bv8>, ghost full: seq<bv8>) returns (i': nat)
      requires Held(data[..], tail) && |tail| < 64 && i == |tail| / 4 && sc == |tail| % 4
      requires |tail| + 4 - sc <= |full| && tail <= full && full[|tail|] == 0x80
      requires forall k :: |tail| < k < |full| ==> full[k] == 0
      modifies data
      ensures i' == i + 1 && Loaded(data[..], full, i')
    {
      hide LeWord;
      var end: seq<bv8> := [0x80, 0, 0, 0];
      HeldPart(data[..], tail);
      LoadedExtend(data[..], tail, full);
      var l := data[i];
      var pos: nat;
      l, pos := PC2l(end, l, sc, tail[4 * i..]);
      assert tail[4 * i..] + end[..4 - sc] == full[4 * i..4 * i + 4];
      data[i] := l;
      i' := i + 1;
    }

    method ZeroWords(i0: nat, n: nat, ghost full: seq<bv8>)
      requires data.Length == 16 && i0 <= n <= 16 && 4 * n <= |full| && Loaded(data[..], full, i0)
      requires forall k :: 4 * i0 <= k < 4 * n ==> full[k] == 0
      modifies data
      ensures Loaded(data[..], full, n)
    {
      hide LeWord;
      var i := i0;
      ZeroWord();
      while i < n
        invariant i0 <= i <= n && Loaded(data[..], full, i)
      {
        assert full[4 * i..4 * i + 4] == [0, 0, 0, 0];
        data[i] := 0;
        i := i + 1;
      }
    }

    /** Ends the message `m` and returns its digest. */
    method Final(ghost m: seq<bv8>) returns (md: seq<bv8>)
      requires Valid(m)
      modifies this, data
      ensures md == Digest(m) && |md| == 16 && data.Length == 16 && num == 0
    {
      hide Counts, Words, Held, Loaded, Md5Spec.Block, LastWords, LeBytes;
      ghost var (st, tail) := Absorb(INITIAL, m);
      ghost var full := tail + Padding(|m|);
      AbsorbAppend(INITIAL, m, Padding(|m|));
      AbsorbTail(INITIAL, m);
      var i := num / 4;
      PaddedSize(tail, |m|);
      i := CloseWord(i, num % 4, tail, full);
      if num >= 56 {
        ZeroWords(i, 16, full);
        LoadedBlock(data[..], full);
        Block();
        i := 0;
        full := full[64..];
        LoadedNothing(data[..], full);
      }
      ZeroWords(i, 14, full);
      StoredLength(data[..], full, Nl, Nh, |m|);
      data[14] := Word64(Nl);
      data[15] := Word64(Nh);
      Block();
      md := L2c(A) + L2c(B) + L2c(C) + L2c(D);
      L2cLow(A);
      L2cLow(B);
      L2cLow(C);
      L2cLow(D);
      num := 0;
    }
  }

  lemma ZeroWord()
    ensures LeWord([0, 0, 0, 0]) == 0
  {
    hide Or, At;
    LeWordOne(0);
    LeWordStep([0], 0);
    LeWordStep([0, 0], 0);
    LeWordStep([0, 0, 0], 0);
    assert [0] + [0] == [0, 0] && [0, 0] + [0] == [0, 0, 0] && [0, 0, 0] + [0] == [0, 0, 0, 0 as bv8];
    ZeroAt();
    OrZero(0);
  }

  lemma ZeroAt()
    ensures At(0, 0) == 0 && At(0, 1) == 0 && At(0, 2) == 0 && At(0, 3) == 0
  {
  }

  lemma PaddedSize(tail: seq<bv8>, n: nat)
    requires |tail| == n % 64
    ensures var full := tail + Padding(n);
      && |full| == (if |tail| < 56 then 56 else 120)
      && full[|tail|] == 0x80 && forall k :: |tail| < k < |full| ==> full[k] == 0
  {
  }

  lemma LoadedBlock(p: seq<bv64>, full: seq<bv8>)
    requires |p| == 16 && Loaded(p, full, 16)
    ensures LowWords(p) == Words(full[..64])
  {
    hide LeWord, Low;
    var b := full[..64];
    forall i | 0 <= i < 16
      ensures LowWords(p)[i] == Words(b)[i]
    {
      assert b[4 * i..4 * i + 4] == full[4 * i..4 * i + 4];
    }
  }

  lemma LoadedNothing(p: seq<bv64>, t: seq<bv8>)
    ensures Loaded(p, t, 0)
  {
  }

  lemma StoredLength(p: seq<bv64>, rest: seq<bv8>, nl: nat, nh: nat, n: nat)
    requires |p| == 16 && |rest| == 56 && Loaded(p, rest, 14) && Counts(nl, nh, n)
    ensures LowWords(p[14 := Word64(nl)][15 := Word64(nh)]) == LastWords(rest, n)
  {
    hide LeWord, Low, Word64, Word;
    StoredCounter(nl);
    StoredCounter(nh);
    assert nl % 0x1_0000_0000 == nl;
  }

  /** `l2c`: the low four bytes of a word. */
  function L2c(l: bv64): (s: seq<bv8>)
    ensures |s| == 4
  {
    [(l & 0xff) as bv8, ((l >> 8) & 0xff) as bv8, ((l >> 16) & 0xff) as bv8, ((l >> 24) & 0xff) as bv8]
  }

  lemma L2cLow(l: bv64)
    ensures L2c(l) == LeBytes(Low(l))
  {
  }

  ghost predicate Loaded(p: seq<bv64>, t: seq<bv8>, k: nat) {
    k <= |p| && 4 * k <= |t| && forall i :: 0 <= i < k ==> p[i] == LeWord(t[4 * i..4 * i + 4])
  }

  lemma LoadedExtend(p: seq<bv64>, t: seq<bv8>, full: seq<bv8>)
    requires Held(p, t) && t <= full
    ensures Loaded(p, full, |t| / 4)
  {
    forall i | 0 <= i < |t| / 4
      ensures full[4 * i..4 * i + 4] == t[4 * i..4 * i + 4]
    {
    }
  }

  lemma SubSlice<T>(s: seq<T>, lo: nat, hi: nat, d: seq<T>, pos: nat, k: nat, n: nat)
    requires lo <= k <= k + n <= hi <= |s| && pos + hi - lo <= |d|
    requires s[lo..hi] == d[pos..pos + hi - lo]
    ensures s[k..k + n] == d[pos + k - lo..pos + k - lo + n]
  {
    var a, x, y := s[lo..hi], s[k..k + n], d[pos + k - lo..pos + k - lo + n];
    forall i | 0 <= i < n
      ensures x[i] == y[i]
    {
      assert x[i] == a[k - lo + i];
    }
  }

  /** A part of an appended piece. */
  lemma InAppended<T>(t: seq<T>, d: seq<T>, a: nat, b: nat)
    requires |t| <= a <= b <= |t + d|
    ensures (t + d)[a..b] == d[a - |t|..b - |t|]
  {
  }

  lemma HeldPart(p: seq<bv64>, t: seq<bv8>)
    requires Held(p, t) && |t| < 64
    ensures |t| / 4 < 16 && |t[4 * (|t| / 4)..]| == |t| % 4
    ensures |t| % 4 > 0 ==> p[|t| / 4] == LeWord(t[4 * (|t| / 4)..])
  {
  }

  lemma QuadsStart(st: State, x: seq<bv32>)
    requires |x| == 16
    ensures Quads(0, st, x) == st
  {
  }

  lemma PlusMasked(a: bv64, b: bv64)
    ensures Low(Plus(a, Mask(b))) == Plus32(Low(a), Low(b))
  {
    hide Low, Plus, Mask, Plus32;
    PlusLow(a, Mask(b));
    MaskMask(b);
    SameLow(Mask(b), b);
  }

  lemma MaskMask(b: bv64)
    ensures Mask(Mask(b)) == Mask(b)
  {
  }
}
