/** Visual encoding of bytes, in the C locale: what one byte is encoded as, and a decoder. */
module VisCode {
  import opened Basics

  datatype Flags = Flags(octal: bool, cstyle: bool, sp: bool, tab: bool, nl: bool, safe: bool, noslash: bool,
                         http: bool)

  predicate IsOctal(c: byte) {
    '0' as int <= c <= '7' as int
  }

  predicate IsWhite(c: byte) {
    c == 32 || c == 9 || c == 10
  }

  /** Backspace, bell and carriage return. */
  predicate IsSafe(c: byte) {
    c == 8 || c == 7 || c == 13
  }

  predicate IsAscii(c: byte) {
    c < 128
  }

  predicate IsGraph(c: byte) {
    32 < c < 127
  }

  predicate IsCntrl(c: byte) {
    c < 32 || c == 127
  }

  predicate IsAlnum(c: byte) {
    '0' as int <= c <= '9' as int || 'A' as int <= c <= 'Z' as int || 'a' as int <= c <= 'z' as int
  }

  function Hex(d: int): byte
    requires 0 <= d < 16
  {
    if d < 10 then '0' as int + d else 'a' as int + d - 10
  }

  /** The caller's extra characters, and those that the flags ask for. */
  function ExtraList(f: Flags, extra: seq<byte>): seq<byte> {
    extra
    + (if f.sp then [32] else [])
    + (if f.tab then [9] else [])
    + (if f.nl then [10] else [])
    + (if f.noslash then [] else ['\\' as int])
  }

  /** Searching the list finds its closing NUL as well. */
  predicate IsExtra(list: seq<byte>, c: byte) {
    c in list || c == 0
  }

  function Octal(c: byte): (r: seq<byte>)
    ensures |r| == 4 && r[0] == '\\' as int
  {
    ['\\' as int, c / 64 + '0' as int, c / 8 % 8 + '0' as int, c % 8 + '0' as int]
  }

  /** The letter of a C escape. */
  function Letter(c: byte): byte {
    if c == 10 then 'n' as int
    else if c == 13 then 'r' as int
    else if c == 8 then 'b' as int
    else if c == 7 then 'a' as int
    else if c == 11 then 'v' as int
    else if c == 9 then 't' as int
    else if c == 12 then 'f' as int
    else if c == 32 then 's' as int
    else c
  }

  predicate HasLetter(c: byte) {
    7 <= c <= 13 || c == 32
  }

  function Meta(f: Flags, c: byte): seq<byte> {
    (if f.noslash then [] else ['\\' as int])
    + (if c >= 128 then ['M' as int] else [])
    + (var l: byte := c % 128; if IsCntrl(l) then ['^' as int, if l == 127 then '?' as int else l + '@' as int]
      else ['-' as int, l])
  }

  predicate Plain(f: Flags, list: seq<byte>, c: byte) {
    !IsExtra(list, c) && IsAscii(c) && (IsGraph(c) || IsWhite(c) || (f.safe && IsSafe(c)))
  }

  /** `c` in front of `next`. */
  function Coded(f: Flags, list: seq<byte>, c: byte, next: byte): (r: seq<byte>)
    ensures 1 <= |r| <= 4
  {
    if Plain(f, list, c) then [c]
    else if f.cstyle && (HasLetter(c) || IsGraph(c)) then ['\\' as int, Letter(c)]
    else if f.cstyle && c == 0 then ['\\' as int, '0' as int] + (if IsOctal(next) then ['0' as int, '0' as int] else [])
    else if IsExtra(list, c) || c % 128 == 32 || f.octal then Octal(c)
    else Meta(f, c)
  }

  /** The same in the style of section 2.2 of RFC 1808. */
  function HttpCoded(f: Flags, list: seq<byte>, c: byte, next: byte): (r: seq<byte>)
    ensures 1 <= |r| <= 4
  {
    if !IsAlnum(c) then ['%' as int, Hex(c / 16), Hex(c % 16)] else Coded(f, list, c, next)
  }

  function Code(f: Flags, list: seq<byte>, c: byte, next: byte): (r: seq<byte>)
    ensures 1 <= |r| <= 4
  {
    if f.http then HttpCoded(f, list, c, next) else Coded(f, list, c, next)
  }

  function Next(s: seq<byte>): byte {
    if |s| > 1 then s[1] else 0
  }

  function Encoded(f: Flags, list: seq<byte>, s: seq<byte>): seq<byte> {
    if s == [] then [] else Code(f, list, s[0], Next(s)) + Encoded(f, list, s[1..])
  }

  /** The encoding takes at most four times the room. */
  lemma {:induction false} EncodedLength(f: Flags, list: seq<byte>, s: seq<byte>)
    ensures |s| <= |Encoded(f, list, s)| <= 4 * |s|
  {
    if s != [] {
      EncodedLength(f, list, s[1..]);
    }
  }

  /** Some byte is encoded in less than four. */
  ghost predicate SomeShort(f: Flags, list: seq<byte>, s: seq<byte>) {
    exists i :: 0 <= i < |s| && |Code(f, list, s[i], Next(s[i..]))| < 4
  }

  /** Four times the size of the source has room for the encoding and its NUL exactly if some
      byte is encoded in less than four. */
  lemma {:induction false} FourTimesIff(f: Flags, list: seq<byte>, s: seq<byte>)
    ensures |Encoded(f, list, s)| + 1 <= 4 * |s| <==> SomeShort(f, list, s)
  {
    hide Code;
    if s != [] {
      var rest := s[1..];
      FourTimesIff(f, list, rest);
      EncodedLength(f, list, rest);
      assert s[0..] == s;
      if SomeShort(f, list, rest) {
        var i :| 0 <= i < |rest| && |Code(f, list, rest[i], Next(rest[i..]))| < 4;
        assert rest[i..] == s[i + 1..];
        assert SomeShort(f, list, s);
      }
      if SomeShort(f, list, s) && |Code(f, list, s[0], Next(s))| == 4 {
        var i :| 0 <= i < |s| && |Code(f, list, s[i], Next(s[i..]))| < 4;
        assert s[i..] == rest[i - 1..] && s[i] == rest[i - 1];
      }
    }
  }

  /** A byte in octal needs four, and has no room for the NUL in four. */
  lemma OctalFillsFour()
    ensures var f := Flags(true, false, false, false, false, false, false, false);
      |Encoded(f, ExtraList(f, []), [1])| + 1 > 4 * |[1]|
  {
    var f := Flags(true, false, false, false, false, false, false, false);
    Single(f, ExtraList(f, []), 1);
  }

  /** Which bytes stand for themselves. */
  lemma ItselfIff(f: Flags, extra: seq<byte>, c: byte, next: byte)
    requires !f.http
    ensures Code(f, ExtraList(f, extra), c, next) == [c] <==>
      && c !in extra
      && ((33 <= c <= 126 && (c == 92 ==> f.noslash)) || (c == 32 && !f.sp) || (c == 9 && !f.tab) || (c == 10 && !f.nl)
          || (f.safe && c in {7, 8, 13}))
  {
    assert c in ExtraList(f, extra)
      <==> c in extra || (f.sp && c == 32) || (f.tab && c == 9) || (f.nl && c == 10) || (!f.noslash && c == 92);
  }

  lemma HttpItselfIff(f: Flags, extra: seq<byte>, c: byte, next: byte)
    requires f.http
    ensures Code(f, ExtraList(f, extra), c, next) == [c]
      <==> c !in extra && (48 <= c <= 57 || 65 <= c <= 90 || 97 <= c <= 122)
  {
    assert c in ExtraList(f, extra)
      <==> c in extra || (f.sp && c == 32) || (f.tab && c == 9) || (f.nl && c == 10) || (!f.noslash && c == 92);
  }

  /** Where codes of C are asked for, they change exactly the codes of these bytes, those that do
      not stand for themselves. */
  lemma CStyleIff(f: Flags, list: seq<byte>, c: byte, next: byte)
    requires f.cstyle && !f.http
    ensures Code(f, list, c, next) != Code(f.(cstyle := false), list, c, next)
      <==> Code(f, list, c, next) != [c]
           && (c in {7, 8, 9, 10, 11, 12, 13, 32} || 33 <= c <= 126 || (c == 0 && !(48 <= next <= 55)))
  {
    var a, b := Code(f, list, c, next), Code(f.(cstyle := false), list, c, next);
    if Plain(f, list, c) {
      assert a == b == [c];
    } else if HasLetter(c) || IsGraph(c) {
      assert |a| == 2 && a[0] == 92 && a[1] == Letter(c);
      assert |b| == 4 || b == Meta(f, c);
    }
  }

  /** Where octal codes are asked for, every byte that neither stands for itself nor has a code of
      C has one; otherwise exactly extra characters, NULs and the two spaces among these. */
  lemma OctalIff(f: Flags, list: seq<byte>, c: byte, next: byte)
    requires !f.http && !f.cstyle
    ensures Code(f, list, c, next) == [92, 48 + c / 64, 48 + c / 8 % 8, 48 + c % 8]
      <==> Code(f, list, c, next) != [c] && (f.octal || c in list || c in {0, 32, 160})
  {
    var a := Code(f, list, c, next);
    assert Plain(f, list, c) ==> a == [c];
    assert |Meta(f, c)| > 1 && !(|Meta(f, c)| == 4 && Meta(f, c)[1] < 58);
  }

  /** A text in which every kind of code occurs, as codes of C: bell, backspace, tab, newline,
      vertical tab, form feed, carriage return, space, a number sign among the extra
      characters, a NUL in front of a digit, and a NUL. */
  lemma CodesOfC()
    ensures var f := Flags(false, true, true, true, true, false, false, false);
      var list := ExtraList(f, [35]);
      && Code(f, list, 7, 0) == [92, 97] && Code(f, list, 8, 0) == [92, 98] && Code(f, list, 9, 0) == [92, 116]
      && Code(f, list, 10, 0) == [92, 110] && Code(f, list, 11, 0) == [92, 118] && Code(f, list, 12, 0) == [92, 102]
      && Code(f, list, 13, 0) == [92, 114] && Code(f, list, 32, 0) == [92, 115] && Code(f, list, 35, 0) == [92, 35]
      && Code(f, list, 92, 0) == [92, 92] && Code(f, list, 0, 55) == [92, 48, 48, 48]
      && Code(f, list, 0, 56) == [92, 48]
  {
  }

  /** Control characters by name, NULs and backslashes in octal. */
  lemma OtherCodes()
    ensures var f := Flags(false, false, false, false, false, false, false, false);
      var list := ExtraList(f, []);
      && Code(f, list, 1, 0) == [92, 94, 65] && Code(f, list, 127, 0) == [92, 94, 63]
      && Code(f, list, 0, 0) == [92, 48, 48, 48] && Code(f, list, 92, 0) == [92, 49, 51, 52]
  {
  }

  /** Characters above 127, and the space among them. */
  lemma HighCodes()
    ensures var f := Flags(false, false, false, false, false, false, false, false);
      var list := ExtraList(f, []);
      && Code(f, list, 225, 0) == [92, 77, 45, 97] && Code(f, list, 129, 0) == [92, 77, 94, 65]
      && Code(f, list, 255, 0) == [92, 77, 94, 63] && Code(f, list, 160, 0) == [92, 50, 52, 48]
  {
  }

  /** In octal on demand, by name without backslashes, and in the style for URLs. */
  lemma FlaggedCodes()
    ensures var f := Flags(true, false, false, false, false, false, false, false);
      Code(f, ExtraList(f, []), 27, 0) == [92, 48, 51, 51] && Code(f, ExtraList(f, []), 254, 0) == [92, 51, 55, 54]
    ensures var f := Flags(false, false, false, false, false, false, true, false);
      Code(f, ExtraList(f, []), 1, 0) == [94, 65] && Code(f, ExtraList(f, []), 225, 0) == [77, 45, 97]
    ensures var f := Flags(false, false, false, false, false, false, false, true);
      Code(f, ExtraList(f, []), 47, 0) == [37, 50, 102] && Code(f, ExtraList(f, []), 0, 0) == [37, 48, 48]
  {
  }

  // ----- decoding -----------------------------------------------------------------

  function AsByte(x: int): byte {
    if 0 <= x < 256 then x else 0
  }

  function At(s: seq<byte>, i: nat): byte {
    if i < |s| then s[i] else 0
  }

  function OctalValue(d2: byte, d1: byte, d0: byte): byte {
    AsByte((d2 - 48) * 64 + (d1 - 48) * 8 + d0 - 48)
  }

  lemma OctalDigits(c: byte)
    ensures var s := Octal(c);
      OctalValue(s[1], s[2], s[3]) == c && IsOctal(s[1]) && IsOctal(s[2]) && IsOctal(s[3])
  {
  }

  function HexValue(c: byte): int {
    if c < 58 then c - 48 else c - 87
  }

  lemma HexDigits(c: byte)
    ensures 16 * HexValue(Hex(c / 16)) + HexValue(Hex(c % 16)) == c
  {
  }

  function Control(c: byte): byte {
    if c == '?' as int then 127 else AsByte(c - 64)
  }

  /** The control character that a letter stands for, other letters for themselves. */
  function OfLetter(c: byte): byte {
    if c == 'n' as int then 10
    else if c == 'r' as int then 13
    else if c == 'b' as int then 8
    else if c == 'a' as int then 7
    else if c == 'v' as int then 11
    else if c == 't' as int then 9
    else if c == 'f' as int then 12
    else if c == 's' as int then 32
    else c
  }

  /** The first byte of a code and the length of its encoding, given the four bytes at the
      beginning, or as many as there are and zeros. */
  function First(a: byte, b: byte, c: byte, d: byte): (byte, nat) {
    if a != '\\' as int then (a, 1)
    else if b == '0' as int && !IsOctal(c) then (0, 2)
    else if IsOctal(b) then (OctalValue(b, c, d), 4)
    else if b == '^' as int then (Control(c), 3)
    else if b == 'M' as int then (AsByte(128 + (if c == '^' as int then Control(d) else d)), 4)
    else (OfLetter(b), 2)
  }

  function HttpFirst(cstyle: bool, a: byte, b: byte, c: byte, d: byte): (byte, nat) {
    if a == '%' as int then (AsByte(16 * HexValue(b) + HexValue(c)), 3)
    else if a != '\\' as int then (a, 1)
    else if cstyle then (b, 2)
    else (OctalValue(b, c, d), 4)
  }

  function FirstOf(f: Flags, s: seq<byte>): (byte, nat)
    requires s != []
  {
    if f.http then HttpFirst(f.cstyle, s[0], At(s, 1), At(s, 2), At(s, 3))
      else First(s[0], At(s, 1), At(s, 2), At(s, 3))
  }

  function Decoded(f: Flags, s: seq<byte>): seq<byte>
    decreases |s|
  {
    if s == [] then []
    else
      var (c, n) := FirstOf(f, s);
      if 0 < n <= |s| then [c] + Decoded(f, s[n..]) else [c]
  }

  /** The extra characters whose C escapes the decoder takes for other codes. */
  predicate Ambiguous(c: byte) {
    IsOctal(c) || c == 'M' as int || c == '^' as int || OfLetter(c) != c
  }

  predicate ByMeta(f: Flags, list: seq<byte>, c: byte) {
    && !Plain(f, list, c) && !(f.cstyle && (HasLetter(c) || IsGraph(c) || c == 0))
    && !IsExtra(list, c) && c % 128 != 32 && !f.octal
  }

  /** Backslashes stand for nothing else: they are encoded themselves, and where they may not
      be written, no byte needs a code that would begin with one. */
  predicate Escapes(f: Flags, list: seq<byte>) {
    '\\' as int in list && (f.noslash ==> forall c: byte :: 0 <= c < 256 ==> !ByMeta(f, list, c))
  }

  /** What a caller has to see to for the encoding to be reversible: nothing in the style
      for URLs; otherwise backslashes, and with C escapes no extra characters that are
      taken for others. */
  predicate Reversible(f: Flags, extra: seq<byte>) {
    f.http || (Escapes(f, ExtraList(f, extra)) && (f.cstyle ==> forall c :: c in extra ==> !Ambiguous(c)))
  }

  lemma PlainOrBackslash(f: Flags, list: seq<byte>, c: byte, next: byte)
    requires !f.http && Escapes(f, list)
    ensures var r := Coded(f, list, c, next);
      if Plain(f, list, c) then r == [c] && c !in list else |r| > 1 && r[0] == '\\' as int
    ensures Coded(f, list, c, next)[0] !in list || Coded(f, list, c, next)[0] == '\\' as int
  {
    assert !(f.noslash && ByMeta(f, list, c));
  }

  /** What follows the code of `c` can only begin with an octal digit if `next` is one. */
  lemma OctalAhead(f: Flags, list: seq<byte>, s: seq<byte>)
    requires !f.http && Escapes(f, list) && s != []
    ensures var tail := Encoded(f, list, s[1..]);
      IsOctal(At(tail, 0)) ==> IsOctal(Next(s))
  {
    if |s| > 1 {
      PlainOrBackslash(f, list, s[1], Next(s[1..]));
    }
  }

  lemma FirstMeta(f: Flags, c: byte)
    requires !f.noslash && c % 128 != 32 && (c >= 128 || !IsGraph(c))
    ensures var r := Meta(f, c);
      First(r[0], r[1], r[2], At(r, 3)) == (c, |r|)
  {
  }

  /** `c` is put behind a backslash as it is. */
  predicate Own(f: Flags, list: seq<byte>, c: byte) {
    f.cstyle && c in list && IsGraph(c)
  }

  /** The code of `c` alone, and what of it is left open for what follows. */
  lemma FirstAlone(f: Flags, list: seq<byte>, c: byte, next: byte, x: byte, y: byte, z: byte)
    requires !f.http && Escapes(f, list) && (Own(f, list, c) ==> !Ambiguous(c)) && (IsOctal(x) ==> IsOctal(next))
    ensures var r := Coded(f, list, c, next);
      First(r[0], if |r| > 1 then r[1] else x, if |r| > 2 then r[2] else if |r| > 1 then x else y,
            if |r| > 3 then r[3] else if |r| > 2 then x else if |r| > 1 then y else z) == (c, |r|)
  {
    hide Meta, Octal, OctalValue;
    if Plain(f, list, c) {
    } else if f.cstyle && (HasLetter(c) || IsGraph(c)) {
    } else if f.cstyle && c == 0 {
      OctalDigits(0);
      ZeroDigits();
    } else if IsExtra(list, c) || c % 128 == 32 || f.octal {
      OctalDigits(c);
    } else {
      assert ByMeta(f, list, c);
      FirstMeta(f, c);
    }
  }

  lemma ZeroDigits()
    ensures Octal(0) == ['\\' as int, '0' as int, '0' as int, '0' as int]
  {
  }

  lemma FirstCoded(f: Flags, list: seq<byte>, c: byte, next: byte, tail: seq<byte>)
    requires !f.http && Escapes(f, list) && (Own(f, list, c) ==> !Ambiguous(c)) && (IsOctal(At(tail, 0)) ==>
      IsOctal(next))
    ensures var r := Coded(f, list, c, next); FirstOf(f, r + tail) == (c, |r|)
  {
    hide Coded, First, Escapes;
    var r := Coded(f, list, c, next);
    assert forall i :: 0 <= i < |r| ==> At(r + tail, i) == r[i];
    assert forall i :: |r| <= i ==> At(r + tail, i) == At(tail, i - |r|);
    FirstAlone(f, list, c, next, At(tail, 0), At(tail, 1), At(tail, 2));
  }

  lemma OwnOfExtra(f: Flags, extra: seq<byte>, c: byte)
    requires Own(f, ExtraList(f, extra), c) && !f.http && Reversible(f, extra)
    ensures !Ambiguous(c)
  {
    assert c == '\\' as int || c in extra;
  }

  lemma FirstHttp(f: Flags, list: seq<byte>, c: byte, next: byte, tail: seq<byte>)
    requires f.http
    ensures var r := HttpCoded(f, list, c, next); FirstOf(f, r + tail) == (c, |r|)
  {
    hide Hex, HexValue, Octal, OctalValue;
    var r := HttpCoded(f, list, c, next);
    assert forall i :: 0 <= i < |r| ==> At(r + tail, i) == r[i];
    HexDigits(c);
    OctalDigits(c);
    if IsAlnum(c) && !Plain(f, list, c) {
      assert c in list && c % 128 != 32;
    }
  }

  /** Decoding undoes encoding. */
  lemma {:induction false} DecodedEncoded(f: Flags, extra: seq<byte>, s: seq<byte>)
    requires Reversible(f, extra)
    ensures Decoded(f, Encoded(f, ExtraList(f, extra), s)) == s
  {
    hide Coded, HttpCoded, FirstOf, ExtraList, Escapes, Ambiguous;
    if s != [] {
      var list := ExtraList(f, extra);
      var r, tail := Code(f, list, s[0], Next(s)), Encoded(f, list, s[1..]);
      if f.http {
        FirstHttp(f, list, s[0], Next(s), tail);
      } else {
        OctalAhead(f, list, s);
        if Own(f, list, s[0]) {
          OwnOfExtra(f, extra, s[0]);
        }
        FirstCoded(f, list, s[0], Next(s), tail);
      }
      assert (r + tail)[|r|..] == tail;
      DecodedEncoded(f, extra, s[1..]);
    }
  }

  /** Decoding undoes encoding exactly where the caller has seen to it: for all flags and
      extra characters. */
  lemma DecodedIff(f: Flags, extra: seq<byte>)
    ensures (forall s :: Decoded(f, Encoded(f, ExtraList(f, extra), s)) == s) <==> Reversible(f, extra)
  {
    if Reversible(f, extra) {
      forall s
        ensures Decoded(f, Encoded(f, ExtraList(f, extra), s)) == s
      {
        DecodedEncoded(f, extra, s);
      }
    } else {
      var c := Misread(f, extra);
      assert Decoded(f, Encoded(f, ExtraList(f, extra), [c])) != [c];
    }
  }

  /** A byte that is not decoded to itself. */
  lemma Misread(f: Flags, extra: seq<byte>) returns (c: byte)
    requires !Reversible(f, extra)
    ensures Decoded(f, Encoded(f, ExtraList(f, extra), [c])) != [c]
  {
    hide Meta, Encoded, Decoded, ExtraList;
    var list := ExtraList(f, extra);
    if '\\' as int !in list {
      c := '\\' as int;
    } else if !Escapes(f, list) {
      c :| 0 <= c < 256 && ByMeta(f, list, c);
      BareMeta(f, c);
    } else {
      c :| c in extra && Ambiguous(c);
      Listed(f, extra, c);
    }
    Single(f, list, c);
    DecodedFirst(f, Code(f, list, c, 0));
  }

  lemma BareMeta(f: Flags, c: byte)
    requires f.noslash && (c >= 128 || !IsGraph(c)) && c % 128 != 32
    ensures var r := Meta(f, c); r != [] && r[0] != '\\' as int && r[0] != c
  {
  }

  lemma Listed(f: Flags, extra: seq<byte>, c: byte)
    requires c in extra
    ensures c in ExtraList(f, extra)
  {
  }

  lemma DecodedFirst(f: Flags, s: seq<byte>)
    requires s != []
    ensures Decoded(f, s) != [] && Decoded(f, s)[0] == FirstOf(f, s).0
  {
  }

  // ----- whether any decoder can do it ----------------------------------------------

  /** The C escape or code of `c` begins like that of an extra character, and goes on like
      bytes that stand for themselves. */
  predicate Confusable(f: Flags, list: seq<byte>, c: byte) {
    var r := Coded(f, list, c, 0);
    && |r| > 1 && r[1] != c && r[1] in list
    && forall i :: 2 <= i < |r| ==> r[i] !in list || r[i] == '\\' as int
  }

  /** Different bytes are encoded differently. */
  ghost predicate Injective(f: Flags, list: seq<byte>) {
    forall s, t :: Encoded(f, list, s) == Encoded(f, list, t) ==> s == t
  }

  /** Where backslashes stand for nothing else, the encoding loses nothing, whatever the extra
      characters, exactly if no escape can be confused. */
  lemma InjectiveWithExtraIff(f: Flags, list: seq<byte>)
    requires !f.http && Escapes(f, list)
    ensures Injective(f, list) <==> !f.cstyle || forall c: byte :: 0 <= c < 256 ==> !Confusable(f, list, c)
  {
    hide Confusable, Encoded, Escapes;
    if !f.cstyle || forall c: byte :: 0 <= c < 256 ==> !Confusable(f, list, c) {
      forall s, t | Encoded(f, list, s) == Encoded(f, list, t)
        ensures s == t
      {
        SameEncoding(f, list, s, t);
      }
    } else {
      var c: byte :| 0 <= c < 256 && Confusable(f, list, c);
      var s, t := Confused(f, list, c);
      assert Encoded(f, list, s) == Encoded(f, list, t);
    }
  }

  lemma {:induction false} SameEncoding(f: Flags, list: seq<byte>, s: seq<byte>, t: seq<byte>)
    requires !f.http && Escapes(f, list) && (!f.cstyle || forall c: byte :: 0 <= c < 256 ==> !Confusable(f, list, c))
    requires Encoded(f, list, s) == Encoded(f, list, t)
    ensures s == t
  {
    hide Coded, Escapes, Confusable;
    if s == [] || t == [] {
      EncodedLength(f, list, s);
      EncodedLength(f, list, t);
    } else {
      var a, b := Coded(f, list, s[0], Next(s)), Coded(f, list, t[0], Next(t));
      SameFirst(f, list, s, t);
      OctalAhead(f, list, s);
      OctalAhead(f, list, t);
      SameLength(f, list, s[0], Next(s), Next(t), Encoded(f, list, s[1..]), Encoded(f, list, t[1..]));
      assert (a + Encoded(f, list, s[1..]))[|a|..] == (b + Encoded(f, list, t[1..]))[|b|..];
      SameEncoding(f, list, s[1..], t[1..]);
      assert s == [s[0]] + s[1..] && t == [t[0]] + t[1..];
    }
  }

  /** A short NUL is not followed by what would make it a long one. */
  lemma SameLength(f: Flags, list: seq<byte>, c: byte, m: byte, n: byte, x: seq<byte>, y: seq<byte>)
    requires (IsOctal(At(x, 0)) ==> IsOctal(m)) && (IsOctal(At(y, 0)) ==> IsOctal(n))
    requires Coded(f, list, c, m) + x == Coded(f, list, c, n) + y
    ensures |Coded(f, list, c, m)| == |Coded(f, list, c, n)|
  {
    var a, b := Coded(f, list, c, m), Coded(f, list, c, n);
    var u := a + x;
    assert |a| > 2 ==> u[2] == a[2];
    assert |a| == 2 && x != [] ==> u[2] == x[0];
    assert |b| > 2 ==> u[2] == (b + y)[2] == b[2];
    assert |b| == 2 && y != [] ==> u[2] == (b + y)[2] == y[0];
  }

  lemma SameFirst(f: Flags, list: seq<byte>, s: seq<byte>, t: seq<byte>)
    requires !f.http && Escapes(f, list) && (!f.cstyle || forall c: byte :: 0 <= c < 256 ==> !Confusable(f, list, c))
    requires s != [] && t != [] && Encoded(f, list, s) == Encoded(f, list, t)
    ensures s[0] == t[0]
  {
    hide Coded, Escapes, Confusable, FirstOf;
    if Own(f, list, s[0]) && !Own(f, list, t[0]) {
      OwnMeetsNone(f, list, s, t);
    } else if Own(f, list, t[0]) && !Own(f, list, s[0]) {
      OwnMeetsNone(f, list, t, s);
    } else if Own(f, list, s[0]) {
      OwnCode(f, list, s[0], Next(s));
      OwnCode(f, list, t[0], Next(t));
      assert Encoded(f, list, s)[1] == s[0] && Encoded(f, list, t)[1] == t[0];
    } else {
      OctalAhead(f, list, s);
      OctalAhead(f, list, t);
      FirstCoded(f, list, s[0], Next(s), Encoded(f, list, s[1..]));
      FirstCoded(f, list, t[0], Next(t), Encoded(f, list, t[1..]));
    }
  }

  lemma OwnCode(f: Flags, list: seq<byte>, c: byte, next: byte)
    requires Own(f, list, c)
    ensures Coded(f, list, c, next) == ['\\' as int, c]
  {
  }

  /** If an extra character behind a backslash begins like another code, that code can be
      confused. */
  lemma OwnMeetsNone(f: Flags, list: seq<byte>, s: seq<byte>, t: seq<byte>)
    requires !f.http && Escapes(f, list) && Encoded(f, list, s) == Encoded(f, list, t)
    requires s != [] && t != [] && Own(f, list, s[0]) && !Own(f, list, t[0])
    ensures Confusable(f, list, t[0])
  {
    hide Coded, Escapes, Own, Encoded, Confusable, Plain;
    var c, d := s[0], t[0];
    var r, tail, more := Coded(f, list, d, Next(t)), Encoded(f, list, s[1..]), Encoded(f, list, t[1..]);
    OwnCode(f, list, c, Next(s));
    Unfolded(f, list, s);
    Unfolded(f, list, t);
    var e := ['\\' as int, c] + tail;
    assert e == r + more;
    EscapesListed(f, list);
    PlainOrBackslash(f, list, d, Next(t));
    assert e[0] == r[0] && e[1] == c;
    PlainListed(f, list, d);
    assert e[1] == r[1];
    NotAtStart(f, list, s[1..]);
    if |r| > 2 {
      assert tail[0] == e[2] == (r + more)[2] == r[2];
      if |r| > 3 {
        assert tail[1] == e[3] == (r + more)[3] == r[3];
        BackslashLast(f, list, d, Next(t));
        NotAtStart(f, list, s[1..][1..]);
      }
    }
    OwnNotOther(f, list, c, d);
    NextMatters(f, list, d, Next(t));
    IsConfusable(f, list, d, c);
  }

  lemma Unfolded(f: Flags, list: seq<byte>, s: seq<byte>)
    requires s != [] && !f.http
    ensures Encoded(f, list, s) == Coded(f, list, s[0], Next(s)) + Encoded(f, list, s[1..])
  {
  }

  lemma PlainListed(f: Flags, list: seq<byte>, c: byte)
    ensures Plain(f, list, c) ==> c !in list
  {
  }

  lemma OwnNotOther(f: Flags, list: seq<byte>, c: byte, d: byte)
    requires Own(f, list, c) && !Own(f, list, d)
    ensures c != d && c in list && f.cstyle
  {
  }

  lemma IsConfusable(f: Flags, list: seq<byte>, d: byte, c: byte)
    requires var r := Coded(f, list, d, 0);
      |r| > 1 && r[1] == c != d && c in list && forall i :: 2 <= i < |r| ==> r[i] !in list || r[i] == '\\' as int
    ensures Confusable(f, list, d)
  {
  }

  lemma EscapesListed(f: Flags, list: seq<byte>)
    requires Escapes(f, list)
    ensures '\\' as int in list
  {
  }

  /** Only a NUL looks ahead. */
  lemma NextMatters(f: Flags, list: seq<byte>, c: byte, next: byte)
    ensures var r := Coded(f, list, c, next);
      if c == 0 && f.cstyle then |r| > 1 && r[1] == '0' as int && Coded(f, list, 0, 0) == ['\\' as int, '0' as int]
        else r == Coded(f, list, c, 0)
  {
  }

  /** A backslash can only be the last of the bytes behind the second. */
  lemma BackslashLast(f: Flags, list: seq<byte>, c: byte, next: byte)
    requires Escapes(f, list)
    ensures var r := Coded(f, list, c, next); |r| == 4 ==> r[2] != '\\' as int
  {
    assert !(f.noslash && ByMeta(f, list, c));
  }

  /** An encoding begins with a backslash or with a byte that stands for itself. */
  lemma NotAtStart(f: Flags, list: seq<byte>, s: seq<byte>)
    requires !f.http && Escapes(f, list)
    ensures var e := Encoded(f, list, s);
      e != [] && e[0] != '\\' as int ==> e[0] !in list && s != [] && e == [s[0]] + Encoded(f, list, s[1..])
  {
    hide Coded, Escapes;
    if s != [] {
      PlainOrBackslash(f, list, s[0], Next(s));
    }
  }

  /** Two byte sequences with the same encoding. */
  lemma Confused(f: Flags, list: seq<byte>, c: byte) returns (s: seq<byte>, t: seq<byte>)
    requires !f.http && f.cstyle && Escapes(f, list) && Confusable(f, list, c)
    ensures s != t && Encoded(f, list, s) == Encoded(f, list, t)
  {
    hide Encoded, Coded;
    var r := Coded(f, list, c, 0);
    ConfusableCode(f, list, c);
    OwnCode(f, list, r[1], At(r, 2));
    if |r| > 2 && r[|r| - 1] == '\\' as int {
      if 'v' as int in list {
        s, t := [11], ['v' as int];
        Single(f, list, 11);
        Single(f, list, 'v' as int);
        TabEscaped(f, list);
      } else {
        s, t := [c, 'v' as int], [r[1]] + r[2..|r| - 1] + [11];
        Followed(f, list, c);
        MiddlePlain(f, list, r[1], r[2..|r| - 1]);
        assert s[0] != t[0];
        assert r + ['v' as int] == ['\\' as int, r[1]] + r[2..|r| - 1] + ['\\' as int, 'v' as int];
      }
    } else {
      s, t := [c], [r[1]] + r[2..];
      Single(f, list, c);
      PlainText(f, list, r[2..]);
      Headed(f, list, r[1], r[2..]);
      assert s[0] != t[0];
      assert r == ['\\' as int, r[1]] + r[2..];
    }
  }

  /** The bytes of a code behind the backslash are graphic. */
  lemma ConfusableCode(f: Flags, list: seq<byte>, c: byte)
    requires f.cstyle && Escapes(f, list) && Confusable(f, list, c)
    ensures var r := Coded(f, list, c, 0);
      && r[0] == '\\' as int && (forall i :: 1 <= i < |r| ==> IsGraph(r[i]))
      && (forall i :: 2 <= i < |r| - 1 ==> r[i] != '\\' as int)
      && (c == 0 ==> |r| == 2)
  {
    assert !(f.noslash && ByMeta(f, list, c));
  }

  lemma TabEscaped(f: Flags, list: seq<byte>)
    requires !f.http && f.cstyle && 'v' as int in list
    ensures Code(f, list, 11, 0) == Code(f, list, 'v' as int, 0)
  {
  }

  lemma Followed(f: Flags, list: seq<byte>, c: byte)
    requires !f.http && f.cstyle && 'v' as int !in list
    ensures Encoded(f, list, [c, 'v' as int]) == Coded(f, list, c, 0) + ['v' as int]
  {
    assert [c, 'v' as int][1..] == ['v' as int];
    Single(f, list, 'v' as int);
  }

  lemma Headed(f: Flags, list: seq<byte>, e: byte, tail: seq<byte>)
    requires !f.http && Own(f, list, e)
    ensures Encoded(f, list, [e] + tail) == ['\\' as int, e] + Encoded(f, list, tail)
  {
    assert ([e] + tail)[1..] == tail;
    OwnCode(f, list, e, Next([e] + tail));
  }

  lemma MiddlePlain(f: Flags, list: seq<byte>, e: byte, m: seq<byte>)
    requires !f.http && f.cstyle && Own(f, list, e) && 'v' as int !in list
    requires forall i :: 0 <= i < |m| ==> Plain(f, list, m[i])
    ensures Encoded(f, list, [e] + m + [11]) == ['\\' as int, e] + m + ['\\' as int, 'v' as int]
  {
    assert [e] + m + [11] == [e] + (m + [11]);
    Headed(f, list, e, m + [11]);
    PlainThenTab(f, list, m);
  }

  lemma {:induction false} PlainThenTab(f: Flags, list: seq<byte>, m: seq<byte>)
    requires !f.http && f.cstyle && forall i :: 0 <= i < |m| ==> Plain(f, list, m[i])
    ensures Encoded(f, list, m + [11]) == m + ['\\' as int, 'v' as int]
  {
    if m == [] {
      Single(f, list, 11);
      assert m + [11] == [11];
    } else {
      PlainThenTab(f, list, m[1..]);
      assert (m + [11])[1..] == m[1..] + [11];
      assert m == [m[0]] + m[1..];
    }
  }

  /** Without extra characters, different bytes are encoded differently exactly when the
      style for URLs is asked for or backslashes are not left out. */
  lemma InjectiveIff(f: Flags)
    ensures Injective(f, ExtraList(f, [])) <==> f.http || !f.noslash
  {
    var list := ExtraList(f, []);
    if f.http || !f.noslash {
      forall s, t | Encoded(f, list, s) == Encoded(f, list, t)
        ensures s == t
      {
        DecodedEncoded(f, [], s);
        DecodedEncoded(f, [], t);
      }
    } else {
      Collision(f);
    }
  }

  /** The code of a vertical tab. */
  function Twin(f: Flags): seq<byte> {
    if f.cstyle then ['\\' as int, 'v' as int]
    else if f.octal then ['\\' as int, '0' as int, '1' as int, '3' as int]
    else ['^' as int, 'K' as int]
  }

  lemma Collision(f: Flags)
    requires !f.http && f.noslash
    ensures Encoded(f, ExtraList(f, []), [11]) == Encoded(f, ExtraList(f, []), Twin(f)) == Twin(f)
  {
    hide Encoded;
    var list := ExtraList(f, []);
    Single(f, list, 11);
    TabCode(f, list);
    PlainText(f, list, Twin(f));
  }

  lemma TabCode(f: Flags, list: seq<byte>)
    requires !f.http && f.noslash && 11 !in list
    ensures Code(f, list, 11, 0) == Twin(f)
  {
  }

  lemma Single(f: Flags, list: seq<byte>, c: byte)
    ensures Encoded(f, list, [c]) == Code(f, list, c, 0)
  {
    hide Code;
    assert [c][1..] == [];
    assert Encoded(f, list, []) == [];
  }

  lemma {:induction false} PlainText(f: Flags, list: seq<byte>, s: seq<byte>)
    requires !f.http && forall i :: 0 <= i < |s| ==> Plain(f, list, s[i])
    ensures Encoded(f, list, s) == s
  {
    if s != [] {
      PlainText(f, list, s[1..]);
      assert s == [s[0]] + s[1..];
    }
  }

  /** With C escapes, an extra `n` is taken for a newline when those are encoded too; if they
      are not, only the decoder mistakes it. */
  lemma ExtraCollides(nl: bool)
    ensures var f := Flags(false, true, false, false, nl, false, false, false);
      var list := ExtraList(f, ['n' as int]);
      && !Reversible(f, ['n' as int])
      && (nl ==> Encoded(f, list, ['n' as int]) == Encoded(f, list, [10]))
      && (Injective(f, list) <==> !nl)
  {
    hide Encoded;
    var f := Flags(false, true, false, false, nl, false, false, false);
    var list := ExtraList(f, ['n' as int]);
    assert list[0] == 'n' as int && Ambiguous(list[0]);
    InjectiveWithExtraIff(f, list);
    Single(f, list, 'n' as int);
    Single(f, list, 10);
    if nl {
      assert list[1] == 10;
      assert Confusable(f, list, 10);
    } else {
      assert list == ['n' as int, '\\' as int];
    }
  }
}

/** The encoder as it writes into the caller's buffer. */
module Vis {
  import opened Basics
  import opened VisCode

  /** One byte put at the pointer, which moves on. */
  method Put(dst: array<byte>, pos: nat, b: byte) returns (pos': nat)
    requires pos < dst.Length
    modifies dst
    ensures pos' == pos + 1 && dst[..pos'] == old(dst[..pos]) + [b]
  {
    dst[pos] := b;
    pos' := pos + 1;
  }

  method PutAll(dst: array<byte>, pos: nat, s: seq<byte>) returns (pos': nat)
    requires pos + |s| <= dst.Length
    modifies dst
    ensures pos' == pos + |s| && dst[..pos'] == old(dst[..pos]) + s
  {
    pos' := pos;
    var i := 0;
    while i < |s|
      invariant 0 <= i <= |s| && pos' == pos + i && dst[..pos'] == old(dst[..pos]) + s[..i]
    {
      pos' := Put(dst, pos', s[i]);
      i := i + 1;
    }
  }

  method PutMeta(dst: array<byte>, pos0: nat, c0: byte, f: Flags) returns (pos: nat)
    requires pos0 + |Meta(f, c0)| <= dst.Length
    modifies dst
    ensures pos == pos0 + |Meta(f, c0)| && dst[..pos] == old(dst[..pos0]) + Meta(f, c0)
  {
    var c := c0;
    pos := pos0;
    if !f.noslash {
      pos := Put(dst, pos, '\\' as int);
    }
    if c >= 128 {
      c := c % 128;
      pos := Put(dst, pos, 'M' as int);
    }
    if IsCntrl(c) {
      pos := Put(dst, pos, '^' as int);
      if c == 127 {
        pos := Put(dst, pos, '?' as int);
      } else {
        pos := Put(dst, pos, c + '@' as int);
      }
    } else {
      pos := Put(dst, pos, '-' as int);
      pos := Put(dst, pos, c);
    }
  }

  method DoSvis(dst: array<byte>, pos0: nat, c: byte, f: Flags, nextc: byte, extra: seq<byte>) returns (pos: nat)
    requires pos0 + |Coded(f, extra, c, nextc)| <= dst.Length
    modifies dst
    ensures pos == pos0 + |Coded(f, extra, c, nextc)| && dst[..pos] == old(dst[..pos0]) + Coded(f, extra, c, nextc)
  {
    hide Meta;
    var isextra := IsExtra(extra, c);
    if !isextra && IsAscii(c) && (IsGraph(c) || IsWhite(c) || (f.safe && IsSafe(c))) {
      pos := Put(dst, pos0, c);
      return;
    }
    if f.cstyle {
      if HasLetter(c) {
        pos := PutAll(dst, pos0, ['\\' as int, Letter(c)]);
        return;
      }
      if c == 0 {
        pos := PutAll(dst, pos0, ['\\' as int, '0' as int]);
        if IsOctal(nextc) {
          pos := PutAll(dst, pos, ['0' as int, '0' as int]);
        }
        return;
      }
      if IsGraph(c) {
        pos := PutAll(dst, pos0, ['\\' as int, c]);
        return;
      }
    }
    if isextra || c % 128 == 32 || f.octal {
      pos := PutAll(dst, pos0, ['\\' as int, c / 64 % 4 + '0' as int, c / 8 % 8 + '0' as int, c % 8 + '0' as int]);
    } else {
      pos := PutMeta(dst, pos0, c, f);
    }
  }

  method DoHvis(dst: array<byte>, pos0: nat, c: byte, f: Flags, nextc: byte, extra: seq<byte>) returns (pos: nat)
    requires pos0 + |HttpCoded(f, extra, c, nextc)| <= dst.Length
    modifies dst
    ensures pos == pos0 + |HttpCoded(f, extra, c, nextc)|
      && dst[..pos] == old(dst[..pos0]) + HttpCoded(f, extra, c, nextc)
  {
    if !IsAscii(c) || !IsAlnum(c) {
      pos := PutAll(dst, pos0, ['%' as int, Hex(c / 16 % 16), Hex(c % 16)]);
    } else {
      pos := DoSvis(dst, pos0, c, f, nextc, extra);
    }
  }

  /** Encodes `src`, and puts a NUL behind, into a buffer that has just the room for it. */
  method Strsvisx(dst: array<byte>, src: seq<byte>, f: Flags, extra: seq<byte>) returns (n: nat)
    requires |Encoded(f, ExtraList(f, extra), src)| + 1 <= dst.Length
    modifies dst
    ensures |src| <= n <= 4 * |src| && n < dst.Length && dst[n] == 0
    ensures dst[..n] == Encoded(f, ExtraList(f, extra), src)
    ensures Reversible(f, extra) ==> Decoded(f, dst[..n]) == src
  {
    hide Coded, HttpCoded, ExtraList, Reversible, Decoded;
    var nextra := ExtraList(f, extra);
    var len, pos: nat := |src|, 0;
    while len > 0
      invariant 0 <= len <= |src| && pos < dst.Length
      invariant dst[..pos] + Encoded(f, nextra, src[|src| - len..]) == Encoded(f, nextra, src)
    {
      var i := |src| - len;
      var c, next: byte := src[i], if len > 1 then src[i + 1] else 0;
      assert src[i..][1..] == src[i + 1..] && Next(src[i..]) == next;
      Unfold(dst[..pos], f, nextra, src[i..]);
      Room(dst[..pos], f, nextra, src[i..], src);
      if f.http {
        pos := DoHvis(dst, pos, c, f, next, nextra);
      } else {
        pos := DoSvis(dst, pos, c, f, next, nextra);
      }
      len := len - 1;
    }
    assert src[|src|..] == [];
    dst[pos] := 0;
    n := pos;
    EncodedLength(f, nextra, src);
    if Reversible(f, extra) {
      DecodedEncoded(f, extra, src);
    }
  }

  lemma Unfold(done: seq<byte>, f: Flags, list: seq<byte>, s: seq<byte>)
    requires s != []
    ensures done + Encoded(f, list, s) == done + Code(f, list, s[0], Next(s)) + Encoded(f, list, s[1..])
  {
  }

  lemma Room(done: seq<byte>, f: Flags, list: seq<byte>, s: seq<byte>, all: seq<byte>)
    requires s != [] && done + Encoded(f, list, s) == Encoded(f, list, all)
    ensures |done| + |Code(f, list, s[0], Next(s))| <= |Encoded(f, list, all)|
  {
    hide Code;
    assert |done + Encoded(f, list, s)| == |done| + |Encoded(f, list, s)|;
  }

  /** Encodes a string, whose end is a NUL. */
  method Strsvis(dst: array<byte>, csrc: seq<byte>, f: Flags, extra: seq<byte>, ghost len: nat) returns (n: nat)
    requires len < |csrc| && csrc[len] == 0 && (forall k :: 0 <= k < len ==> csrc[k] != 0)
    requires |Encoded(f, ExtraList(f, extra), csrc[..len])| + 1 <= dst.Length
    modifies dst
    ensures len <= n <= 4 * len && n < dst.Length && dst[n] == 0
    ensures dst[..n] == Encoded(f, ExtraList(f, extra), csrc[..len])
    ensures Reversible(f, extra) ==> Decoded(f, dst[..n]) == csrc[..len]
  {
    hide Coded, HttpCoded, ExtraList, Reversible, Decoded;
    var nextra := ExtraList(f, extra);
    var src, pos: nat := 0, 0;
    while csrc[src] != 0
      invariant 0 <= src <= len && pos < dst.Length
      invariant dst[..pos] + Encoded(f, nextra, csrc[src..len]) == Encoded(f, nextra, csrc[..len])
      decreases len - src
    {
      var c := csrc[src];
      assert src < len && csrc[src..len][1..] == csrc[src + 1..len] && Next(csrc[src..len]) == csrc[src + 1];
      Unfold(dst[..pos], f, nextra, csrc[src..len]);
      Room(dst[..pos], f, nextra, csrc[src..len], csrc[..len]);
      src := src + 1;
      if f.http {
        pos := DoHvis(dst, pos, c, f, csrc[src], nextra);
      } else {
        pos := DoSvis(dst, pos, c, f, csrc[src], nextra);
      }
    }
    dst[pos] := 0;
    n := pos;
    EncodedLength(f, nextra, csrc[..len]);
    if Reversible(f, extra) {
      DecodedEncoded(f, extra, csrc[..len]);
    }
  }

  /** The forms without extra characters make the list twice over, to no effect; the result
      is reversible whenever backslashes are written or the style is that for URLs. */
  method Strvisx(dst: array<byte>, src: seq<byte>, f: Flags) returns (n: nat)
    requires |Encoded(f, ExtraList(f, []), src)| + 1 <= dst.Length
    modifies dst
    ensures |src| <= n <= 4 * |src| && n < dst.Length && dst[n] == 0
    ensures dst[..n] == Encoded(f, ExtraList(f, []), src)
    ensures f.http || !f.noslash ==> Decoded(f, dst[..n]) == src
  {
    hide Decoded, Encoded;
    var extra := ExtraList(f, []);
    ListedTwice(f, src);
    n := Strsvisx(dst, src, f, extra);
  }

  lemma {:induction false} ListedTwice(f: Flags, s: seq<byte>)
    ensures Encoded(f, ExtraList(f, ExtraList(f, [])), s) == Encoded(f, ExtraList(f, []), s)
  {
    if s != [] {
      ListedTwice(f, s[1..]);
      assert IsExtra(ExtraList(f, ExtraList(f, [])), s[0]) == IsExtra(ExtraList(f, []), s[0]);
    }
  }
}
