/** One digest worked out, that of the small letters in section A.5 of RFC 1321. */
module Md5Sample {
  import opened Md5Spec

  function LetterWords(): (x: seq<bv32>)
    ensures |x| == 16
  {
    [0x64636261, 0x68676665, 0x6c6b6a69, 0x706f6e6d, 0x74737271, 0x78777675, 0x807a79, 0, 0, 0, 0, 0, 0, 0, 208, 0]
  }

  /** The state after `g` times four steps. */
  function LetterState(g: nat): State {
    match g
    case 0 => State(0x67452301, 0xefcdab89, 0x98badcfe, 0x10325476)
    case 1 => State(0xd6d117a6, 0x4503b812, 0x227d8cf1, 0xaab1aaaa)
    case 2 => State(0xfe15f787, 0xda9bbb0d, 0xb71122fc, 0xa811b278)
    case 3 => State(0xae752899, 0x56cfa5cb, 0x7d4bd80b, 0x2bbe757f)
    case 4 => State(0x1754a316, 0x608d6b7e, 0x00df74d5, 0x85567d90)
    case 5 => State(0x2d8071cc, 0x4c2145b3, 0xedfe7e4b, 0x5dcee119)
    case 6 => State(0x570c43e0, 0xc9f162d4, 0xc28ab49d, 0x977efd2a)
    case 7 => State(0x25bfae3b, 0xe6d3b398, 0xf8c8365f, 0x89980104)
    case 8 => State(0xf54d8710, 0xaeb35766, 0x2e69afc7, 0x927b72e2)
    case 9 => State(0xb4bf680e, 0x06a5e211, 0x2361ed0a, 0x4c8ffa80)
    case 10 => State(0xb9c0c733, 0x8d41bf99, 0x23a9451b, 0xf1e6dc7a)
    case 11 => State(0xa3e88ead, 0x90a35af5, 0x66f6468d, 0x02c0b11c)
    case 12 => State(0xb5d41f9c, 0x71d10367, 0x703d54d8, 0xa04b4904)
    case 13 => State(0xfc32dd6e, 0x33edb197, 0xb35602cb, 0x65456b34)
    case 14 => State(0xc1e942f1, 0x83877d1b, 0x23a68048, 0xd9bb987c)
    case 15 => State(0x0077c208, 0x5e6bc930, 0xa3e2247f, 0x847fc2e7)
    case _ => State(0x708ed9c2, 0x1116e6d8, 0xd38f1e7f, 0x2baf1354)
  }

  /** Four steps from `st` to `r`, written out: function, words, shifts and sines. */
  lemma Steps(g: nat, st: State, r: State, f: Fn, k: (nat, nat, nat, nat), s: (nat, nat, nat, nat),
              t: (bv32, bv32, bv32, bv32))
    requires g < 16 && f == FnOf(g) && s == Shifts(g) && t == Sines(g)
    requires k == (WordOf(4 * g), WordOf(4 * g + 1), WordOf(4 * g + 2), WordOf(4 * g + 3))
    requires r.a == Op(f, st.a, st.b, st.c, st.d, LetterWords()[k.0], s.0, t.0)
    requires r.d == Op(f, st.d, r.a, st.b, st.c, LetterWords()[k.1], s.1, t.1)
    requires r.c == Op(f, st.c, r.d, r.a, st.b, LetterWords()[k.2], s.2, t.2)
    requires r.b == Op(f, st.b, r.c, r.d, r.a, LetterWords()[k.3], s.3, t.3)
    ensures Quad(g, st, LetterWords()) == r
  {
    hide Op;
  }

  lemma Steps0()
    ensures Quad(0, LetterState(0), LetterWords()) == LetterState(1)
  {
    Steps(0, LetterState(0), LetterState(1), F, (0, 1, 2, 3), (7, 12, 17, 22),
      (0xd76aa478, 0xe8c7b756, 0x242070db, 0xc1bdceee));
  }

  lemma Steps1()
    ensures Quad(1, LetterState(1), LetterWords()) == LetterState(2)
  {
    Steps(1, LetterState(1), LetterState(2), F, (4, 5, 6, 7), (7, 12, 17, 22),
      (0xf57c0faf, 0x4787c62a, 0xa8304613, 0xfd469501));
  }

  lemma Steps2()
    ensures Quad(2, LetterState(2), LetterWords()) == LetterState(3)
  {
    Steps(2, LetterState(2), LetterState(3), F, (8, 9, 10, 11), (7, 12, 17, 22),
      (0x698098d8, 0x8b44f7af, 0xffff5bb1, 0x895cd7be));
  }

  lemma Steps3()
    ensures Quad(3, LetterState(3), LetterWords()) == LetterState(4)
  {
    Steps(3, LetterState(3), LetterState(4), F, (12, 13, 14, 15), (7, 12, 17, 22),
      (0x6b901122, 0xfd987193, 0xa679438e, 0x49b40821));
  }

  lemma Steps4()
    ensures Quad(4, LetterState(4), LetterWords()) == LetterState(5)
  {
    Steps(4, LetterState(4), LetterState(5), G, (1, 6, 11, 0), (5, 9, 14, 20),
      (0xf61e2562, 0xc040b340, 0x265e5a51, 0xe9b6c7aa));
  }

  lemma Steps5()
    ensures Quad(5, LetterState(5), LetterWords()) == LetterState(6)
  {
    Steps(5, LetterState(5), LetterState(6), G, (5, 10, 15, 4), (5, 9, 14, 20),
      (0xd62f105d, 0x02441453, 0xd8a1e681, 0xe7d3fbc8));
  }

  lemma Steps6()
    ensures Quad(6, LetterState(6), LetterWords()) == LetterState(7)
  {
    Steps(6, LetterState(6), LetterState(7), G, (9, 14, 3, 8), (5, 9, 14, 20),
      (0x21e1cde6, 0xc33707d6, 0xf4d50d87, 0x455a14ed));
  }

  lemma Steps7()
    ensures Quad(7, LetterState(7), LetterWords()) == LetterState(8)
  {
    Steps(7, LetterState(7), LetterState(8), G, (13, 2, 7, 12), (5, 9, 14, 20),
      (0xa9e3e905, 0xfcefa3f8, 0x676f02d9, 0x8d2a4c8a));
  }

  lemma Steps8()
    ensures Quad(8, LetterState(8), LetterWords()) == LetterState(9)
  {
    Steps(8, LetterState(8), LetterState(9), H, (5, 8, 11, 14), (4, 11, 16, 23),
      (0xfffa3942, 0x8771f681, 0x6d9d6122, 0xfde5380c));
  }

  lemma Steps9()
    ensures Quad(9, LetterState(9), LetterWords()) == LetterState(10)
  {
    Steps(9, LetterState(9), LetterState(10), H, (1, 4, 7, 10), (4, 11, 16, 23),
      (0xa4beea44, 0x4bdecfa9, 0xf6bb4b60, 0xbebfbc70));
  }

  lemma Steps10()
    ensures Quad(10, LetterState(10), LetterWords()) == LetterState(11)
  {
    Steps(10, LetterState(10), LetterState(11), H, (13, 0, 3, 6), (4, 11, 16, 23),
      (0x289b7ec6, 0xeaa127fa, 0xd4ef3085, 0x04881d05));
  }

  lemma Steps11()
    ensures Quad(11, LetterState(11), LetterWords()) == LetterState(12)
  {
    Steps(11, LetterState(11), LetterState(12), H, (9, 12, 15, 2), (4, 11, 16, 23),
      (0xd9d4d039, 0xe6db99e5, 0x1fa27cf8, 0xc4ac5665));
  }

  lemma Steps12()
    ensures Quad(12, LetterState(12), LetterWords()) == LetterState(13)
  {
    Steps(12, LetterState(12), LetterState(13), I, (0, 7, 14, 5), (6, 10, 15, 21),
      (0xf4292244, 0x432aff97, 0xab9423a7, 0xfc93a039));
  }

  lemma Steps13()
    ensures Quad(13, LetterState(13), LetterWords()) == LetterState(14)
  {
    Steps(13, LetterState(13), LetterState(14), I, (12, 3, 10, 1), (6, 10, 15, 21),
      (0x655b59c3, 0x8f0ccc92, 0xffeff47d, 0x85845dd1));
  }

  lemma Steps14()
    ensures Quad(14, LetterState(14), LetterWords()) == LetterState(15)
  {
    Steps(14, LetterState(14), LetterState(15), I, (8, 15, 6, 13), (6, 10, 15, 21),
      (0x6fa87e4f, 0xfe2ce6e0, 0xa3014314, 0x4e0811a1));
  }

  lemma Steps15()
    ensures Quad(15, LetterState(15), LetterWords()) == LetterState(16)
  {
    Steps(15, LetterState(15), LetterState(16), I, (4, 11, 2, 9), (6, 10, 15, 21),
      (0xf7537e82, 0xbd3af235, 0x2ad7d2bb, 0xeb86d391));
  }

  lemma LetterQuads()
    ensures Quads(16, INITIAL, LetterWords()) == LetterState(16)
  {
    hide Quad, LetterState, LetterWords;
    var x := LetterWords();
    assert Quads(0, INITIAL, x) == LetterState(0) by {
      FirstLetterState();
    }
    Steps0();
    assert Quads(1, INITIAL, x) == LetterState(1);
    Steps1();
    assert Quads(2, INITIAL, x) == LetterState(2);
    Steps2();
    assert Quads(3, INITIAL, x) == LetterState(3);
    Steps3();
    assert Quads(4, INITIAL, x) == LetterState(4);
    Steps4();
    assert Quads(5, INITIAL, x) == LetterState(5);
    Steps5();
    assert Quads(6, INITIAL, x) == LetterState(6);
    Steps6();
    assert Quads(7, INITIAL, x) == LetterState(7);
    Steps7();
    assert Quads(8, INITIAL, x) == LetterState(8);
    Steps8();
    assert Quads(9, INITIAL, x) == LetterState(9);
    Steps9();
    assert Quads(10, INITIAL, x) == LetterState(10);
    Steps10();
    assert Quads(11, INITIAL, x) == LetterState(11);
    Steps11();
    assert Quads(12, INITIAL, x) == LetterState(12);
    Steps12();
    assert Quads(13, INITIAL, x) == LetterState(13);
    Steps13();
    assert Quads(14, INITIAL, x) == LetterState(14);
    Steps14();
    assert Quads(15, INITIAL, x) == LetterState(15);
    Steps15();
    assert Quads(16, INITIAL, x) == LetterState(16);
  }

  lemma FirstLetterState()
    ensures LetterState(0) == INITIAL
  {
  }

  function Letters(): seq<bv8> {
    [97, 98, 99, 100, 101, 102, 103, 104, 105, 106, 107, 108, 109, 110, 111, 112, 113, 114, 115, 116, 117, 118, 119,
      120,
      121, 122]
  }

  lemma LeFour(a: bv8, b: bv8, c: bv8, d: bv8)
    ensures Low(LeWord([a, b, c, d])) == Four(a, b, c, d)
  {
    hide Or, At, Low;
    assert [a, b, c, d][..3] == [a, b, c] && [a, b, c][..2] == [a, b] && [a, b][..1] == [a] && [a][..0] == [];
    assert LeWord([a]) == Or(0, At(a, 0)) && LeWord([a, b]) == Or(LeWord([a]), At(b, 1));
    assert LeWord([a, b, c]) == Or(LeWord([a, b]), At(c, 2));
  }

  function Four(a: bv8, b: bv8, c: bv8, d: bv8): bv32 {
    Low(Or(Or(Or(Or(0, At(a, 0)), At(b, 1)), At(c, 2)), At(d, 3)))
  }

  lemma {:induction false} NoBits(k: nat)
    ensures Bits(0, k) == 0
  {
    if k > 0 {
      NoBits(k - 1);
    }
  }

  lemma LengthWords()
    ensures Word(208) == 208 && Word(0) == 0
  {
    NoBits(24);
    NoBits(32);
    assert Bits(1, 25) == 1 && Bits(3, 26) == 3 && Bits(6, 27) == 6 && Bits(13, 28) == 13;
    assert Bits(26, 29) == 26 && Bits(52, 30) == 52 && Bits(104, 31) == 104;
  }

  lemma LetterFours()
    ensures Four(97, 98, 99, 100) == 0x64636261 && Four(101, 102, 103, 104) == 0x68676665
      && Four(105, 106, 107, 108) == 0x6c6b6a69 && Four(109, 110, 111, 112) == 0x706f6e6d
    ensures Four(113, 114, 115, 116) == 0x74737271 && Four(117, 118, 119, 120) == 0x78777675
      && Four(121, 122, 128, 0) == 0x807a79 && Four(0, 0, 0, 0) == 0
  {
  }

  lemma PackedAt(m: seq<bv8>, i: nat, a: bv8, b: bv8, c: bv8, d: bv8)
    requires |m| == 56 && i < 14 && m[4 * i] == a && m[4 * i + 1] == b && m[4 * i + 2] == c && m[4 * i + 3] == d
    ensures LastWords(m, 26)[i] == Four(a, b, c, d)
  {
    hide Low, LeWord, Word, Four;
    assert m[4 * i..4 * i + 4] == [a, b, c, d];
    LeFour(a, b, c, d);
  }

  lemma LettersPacked(m: seq<bv8>)
    requires m == Letters() + Padding(26)
    ensures |m| == 56 && LastWords(m, 26) == LetterWords()
  {
    hide Four, LastWords, Letters, Padding, LetterWords;
    LetterFours();
    LettersAt(m);
    LengthAt(m);
    PackedAt(m, 0, 97, 98, 99, 100);
    PackedAt(m, 1, 101, 102, 103, 104);
    PackedAt(m, 2, 105, 106, 107, 108);
    PackedAt(m, 3, 109, 110, 111, 112);
    PackedAt(m, 4, 113, 114, 115, 116);
    PackedAt(m, 5, 117, 118, 119, 120);
    PackedAt(m, 6, 121, 122, 128, 0);
    forall i | 7 <= i < 14
      ensures LastWords(m, 26)[i] == 0
    {
      PackedAt(m, i, 0, 0, 0, 0);
    }
    WordsAre(LastWords(m, 26));
  }

  lemma WordsAre(x: seq<bv32>)
    requires |x| == 16 && x[0] == 0x64636261 && x[1] == 0x68676665 && x[2] == 0x6c6b6a69 && x[3] == 0x706f6e6d
    requires x[4] == 0x74737271 && x[5] == 0x78777675 && x[6] == 0x807a79 && x[14] == 208 && x[15] == 0
    requires forall i :: 7 <= i < 14 ==> x[i] == 0
    ensures x == LetterWords()
  {
  }

  lemma LettersAt(m: seq<bv8>)
    requires m == Letters() + Padding(26)
    ensures |m| == 56 && forall i :: 28 <= i < 56 ==> m[i] == 0
    ensures m[0] == 97 && m[1] == 98 && m[2] == 99 && m[3] == 100 && m[4] == 101 && m[5] == 102 && m[6] == 103
      && m[7] == 104 && m[8] == 105
    ensures m[9] == 106 && m[10] == 107 && m[11] == 108 && m[12] == 109 && m[13] == 110 && m[14] == 111
      && m[15] == 112 && m[16] == 113 && m[17] == 114
    ensures m[18] == 115 && m[19] == 116 && m[20] == 117 && m[21] == 118 && m[22] == 119 && m[23] == 120
      && m[24] == 121 && m[25] == 122 && m[26] == 128 && m[27] == 0
  {
  }

  lemma LengthAt(m: seq<bv8>)
    requires |m| == 56
    ensures LastWords(m, 26)[14] == 208 && LastWords(m, 26)[15] == 0
  {
    hide Word;
    LengthWords();
  }

  lemma LetterBlock()
    ensures Block(INITIAL, LetterWords()) == State(0xd7d3fcc3, 0x00e49261, 0x6c49fb7d, 0x3be167ca)
  {
    hide Quads, LetterWords;
    LetterQuads();
  }

  lemma LetterBytes()
    ensures LeBytes(0xd7d3fcc3) == [0xc3, 0xfc, 0xd3, 0xd7] && LeBytes(0x00e49261) == [0x61, 0x92, 0xe4, 0x00]
    ensures LeBytes(0x6c49fb7d) == [0x7d, 0xfb, 0x49, 0x6c] && LeBytes(0x3be167ca) == [0xca, 0x67, 0xe1, 0x3b]
  {
  }

  /** The digest of `abcdefghijklmnopqrstuvwxyz`. */
  lemma LetterDigest()
    ensures Digest(Letters())
      == [0xc3, 0xfc, 0xd3, 0xd7, 0x61, 0x92, 0xe4, 0x00, 0x7d, 0xfb, 0x49, 0x6c, 0xca, 0x67, 0xe1, 0x3b]
  {
    hide Block, LastWords, LeBytes, Letters, LetterWords, Padding;
    var m := Letters() + Padding(26);
    LettersPacked(m);
    assert |Letters()| == 26 by {
      assert |Padding(26)| == 30;
    }
    LetterBlock();
    LetterBytes();
  }
}
