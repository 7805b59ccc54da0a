/** Numbers in wide strings, as section 7.24.4.1.2 of ISO/IEC 9899:1999 reads them. */
module NumberSyntax {
  /** The character at a position of a string that ends in a NUL. */
  function At(s: string, i: nat): char {
    if i < |s| then s[i] else '\0'
  }

  /** The value of a character as a digit, or -1. */
  function Digit(c: char): (d: int)
    ensures -1 <= d < 36
  {
    if '0' <= c <= '9' then c as int - '0' as int
    else if 'A' <= c <= 'Z' then c as int - 'A' as int + 10
    else if 'a' <= c <= 'z' then c as int - 'a' as int + 10
    else -1
  }

  predicate IsDigit(c: char, base: int) {
    0 <= Digit(c) < base
  }

  /** The position behind the spaces that begin at `i`. */
  function Spaces(s: string, space: char -> bool, i: nat): (j: nat)
    requires i <= |s|
    ensures i <= j <= |s|
    decreases |s| - i
  {
    if i < |s| && space(s[i]) then Spaces(s, space, i + 1) else i
  }

  /** The number of digits from `k` on. */
  function Run(s: string, k: nat, base: int): (n: nat)
    requires k <= |s|
    ensures k + n <= |s|
    decreases |s| - k
  {
    if k < |s| && IsDigit(s[k], base) then 1 + Run(s, k + 1, base) else 0
  }

  /** What `n` digits from `k` on stand for. */
  function Value(s: string, k: nat, n: nat, base: int): nat
    requires base > 0
  {
    if n == 0 then 0 else Shifted(Value(s, k, n - 1, base), base, Worth(At(s, k + n - 1)))
  }

  /** The value of a digit; other characters do not count. */
  function Worth(c: char): nat {
    if Digit(c) >= 0 then Digit(c) else 0
  }

  /** One more digit at the end of a number. */
  function Shifted(v: nat, base: int, d: nat): (r: nat)
    requires base > 0
    ensures r >= v
  {
    Product(v, base);
    v * base + d
  }

  lemma Product(v: nat, base: int)
    requires base > 0
    ensures v * base >= v
  {
  }

  lemma {:induction false} RunDigits(s: string, k: nat, base: int)
    requires k <= |s|
    ensures forall i :: k <= i < k + Run(s, k, base) ==> IsDigit(s[i], base)
    ensures !IsDigit(At(s, k + Run(s, k, base)), base)
    decreases |s| - k
  {
    if k < |s| && IsDigit(s[k], base) {
      RunDigits(s, k + 1, base);
    }
  }

  predicate HexLetter(c: char) {
    c == 'x' || c == 'X'
  }

  /** Where the sign is, where the number begins, and whether it is negative. */
  function SignAt(s: string, space: char -> bool): (nat, bool)
    ensures SignAt(s, space).0 <= |s|
  {
    var i := Spaces(s, space, 0);
    if At(s, i) == '-' then (i + 1, true) else if At(s, i) == '+' then (i + 1, false) else (i, false)
  }

  /** A prefix of hexadecimal numbers, which is one only in front of a digit. */
  predicate Prefixed(s: string, j: nat, base: int) {
    (base == 0 || base == 16) && At(s, j) == '0' && HexLetter(At(s, j + 1))
  }

  predicate Hexadecimal(s: string, j: nat, base: int) {
    Prefixed(s, j, base) && IsDigit(At(s, j + 2), 16)
  }

  datatype Subject = Subject(negative: bool, magnitude: nat, end: nat)

  predicate BaseOk(base: int) {
    base == 0 || 2 <= base <= 36
  }

  /** The number that a string begins with, and where it ends; without digits there is none,
      and it ends at the beginning of the string. */
  function Read(s: string, space: char -> bool, base: int): Subject
    requires BaseOk(base)
  {
    var (j, negative) := SignAt(s, space);
    var b := if base != 0 then base else if Hexadecimal(s, j, base) then 16 else if At(s, j) == '0' then 8 else 10;
    var k := if Hexadecimal(s, j, base) then j + 2 else j;
    var n := Run(s, k, b);
    Subject(negative, Value(s, k, n, b), if n > 0 then k + n else 0)
  }

  /** The one form for which the end differs: the prefix with no digit behind it. */
  predicate BarePrefix(s: string, space: char -> bool, base: int) {
    var j := SignAt(s, space).0;
    Prefixed(s, j, base) && !Hexadecimal(s, j, base)
  }

  /** There a zero is to be read, and nothing is. */
  lemma BareIsZero(s: string, space: char -> bool, base: int)
    requires BaseOk(base) && BarePrefix(s, space, base)
    ensures var r := Read(s, space, base);
      r.magnitude == 0 && r.end == SignAt(s, space).0 + 1
  {
    var j := SignAt(s, space).0;
    var b := if base != 0 then base else 8;
    assert Run(s, j, b) == 1 by {
      assert Run(s, j + 1, b) == 0;
    }
    RunDigits(s, j, b);
    assert Value(s, j, 0, b) == 0;
    assert Value(s, j, 1, b) == Shifted(0, b, 0);
  }

  // ----- numbers that are written ------------------------------------------------------

  /** The characters that a digit is written as: 0 to 9, and the letters from A on. */
  function Small(d: nat): char
    requires d < 36
  {
    if d < 10 then '0' + d as char else 'a' + (d - 10) as char
  }

  function Capital(d: nat): char
    requires d < 36
  {
    if d < 10 then '0' + d as char else 'A' + (d - 10) as char
  }

  lemma DigitIff(c: char, d: nat)
    requires d < 36
    ensures Digit(c) == d <==> c == Small(d) || c == Capital(d)
  {
  }

  /** A number in a base from 2 to 36. */
  function Numeral(n: nat, base: nat): (s: string)
    requires 2 <= base <= 36
    ensures s != ""
    decreases n
  {
    if n < base then [Small(n)] else Numeral(n / base, base) + [Small(n % base)]
  }

  /** What can stand before a number of base `b`, where the caller asks for `base`. */
  ghost predicate Style(base: int, prefix: string, b: nat) {
    || (2 <= base <= 36 && b == base && prefix == "")
    || (base == 16 && b == 16 && (prefix == "0x" || prefix == "0X"))
    || (base == 0 && b == 10 && prefix == "")
    || (base == 0 && b == 8 && prefix == "0")
    || (base == 0 && b == 16 && (prefix == "0x" || prefix == "0X"))
  }

  /** No digit of the base and no letter of a prefix follows. */
  ghost predicate Ends(tail: string, b: nat)
    requires b <= 36
  {
    tail == "" || (!HexLetter(tail[0]) && forall d :: 0 <= d < b ==> tail[0] != Small(d) && tail[0] != Capital(d))
  }

  lemma DigitOf(c: char, d: nat, b: nat)
    requires d < b <= 36 && c == Small(d)
    ensures Worth(c) == d && IsDigit(c, b) && (c == '0' ==> d == 0)
  {
  }

  lemma ValueMore(s: string, k: nat, m: nat, b: int)
    requires b > 0 && m > 0
    ensures Value(s, k, m, b) == Shifted(Value(s, k, m - 1, b), b, Worth(At(s, k + m - 1)))
  {
  }

  lemma Divided(n: nat, b: nat, q: nat, d: nat)
    requires 2 <= b && q == n / b && d == n % b
    ensures d < b && n == q * b + d && q * b >= 0
    ensures if n < b then q == 0 && d == n else 0 < q < n
  {
    if n >= b {
      Half(q, b, d);
    }
  }

  lemma Half(q: nat, b: nat, d: nat)
    requires 2 <= b && d < b && q * b + d >= b
    ensures 0 < q < q * b + d
  {
    assert q == 0 ==> q * b == 0;
    Product(q, b - 1);
    assert q * b == q * (b - 1) + q;
  }

  /** The last digit of a numeral, and the number before it. */
  lemma LastDigit(n: nat, b: nat) returns (q: nat, d: nat)
    requires 2 <= b <= 36
    ensures d < b && Shifted(q, b, d) == n
    ensures Numeral(n, b) == if q == 0 then [Small(d)] else Numeral(q, b) + [Small(d)]
    ensures q == 0 || q < n
  {
    q, d := n / b, n % b;
    Divided(n, b, q, d);
  }

  lemma {:induction false} NumeralValue(s: string, k: nat, n: nat, b: nat)
    requires 2 <= b <= 36 && k + |Numeral(n, b)| <= |s| && s[k..k + |Numeral(n, b)|] == Numeral(n, b)
    ensures Value(s, k, |Numeral(n, b)|, b) == n
    ensures forall i :: k <= i < k + |Numeral(n, b)| ==> IsDigit(s[i], b)
    ensures s[k] == '0' ==> n == 0
    decreases n
  {
    hide Numeral, Shifted, Value, IsDigit, Worth;
    var m := |Numeral(n, b)|;
    var q, d := LastDigit(n, b);
    ValueMore(s, k, m, b);
    var last := s[k + m - 1];
    assert last == s[k..k + m][m - 1];
    DigitOf(last, d, b);
    if q == 0 {
      ValueNone(s, k, b, d);
    } else {
      assert s[k..k + m - 1] == s[k..k + m][..m - 1] == Numeral(q, b);
      NumeralValue(s, k, q, b);
    }
  }

  lemma ValueNone(s: string, k: nat, b: int, d: nat)
    requires b > 0
    ensures Value(s, k, 0, b) == 0 && Shifted(0, b, d) == d
  {
  }

  lemma {:induction false} RunIs(s: string, k: nat, n: nat, b: int)
    requires k + n <= |s| && (forall i :: k <= i < k + n ==> IsDigit(s[i], b)) && !IsDigit(At(s, k + n), b)
    ensures Run(s, k, b) == n
    decreases n
  {
    if n > 0 {
      RunIs(s, k + 1, n - 1, b);
    }
  }

  lemma {:induction false} SpacesIs(s: string, space: char -> bool, i: nat, n: nat)
    requires i + n <= |s| && (forall k :: i <= k < i + n ==> space(s[k])) && (i + n < |s| ==> !space(s[i + n]))
    ensures Spaces(s, space, i) == i + n
    decreases n
  {
    if n > 0 {
      SpacesIs(s, space, i + 1, n - 1);
    }
  }

  /** Signs, digits and prefixes are not spaces. */
  ghost predicate SpacesApart(space: char -> bool) {
    !space('+') && !space('-') && forall d :: 0 <= d < 36 ==> !space(Small(d))
  }

  lemma NumeralFirst(n: nat, b: nat)
    requires 2 <= b <= 36
    ensures exists d :: 0 <= d < b && Numeral(n, b)[0] == Small(d) && (d == 0 ==> n == 0)
    decreases n
  {
    var q, d := LastDigit(n, b);
    if q > 0 {
      NumeralFirst(q, b);
    }
  }

  lemma NoDigitEnds(s: string, e: nat, tail: string, b: nat)
    requires 2 <= b <= 36 && e <= |s| && s[e..] == tail && Ends(tail, b)
    ensures !IsDigit(At(s, e), b) && !HexLetter(At(s, e))
  {
    if tail != "" && Digit(tail[0]) >= 0 {
      DigitIff(tail[0], Digit(tail[0]));
    }
  }

  /** Spaces and a sign in front of a digit. */
  lemma SignAtIs(s: string, space: char -> bool, i: nat, sign: string, d: nat)
    requires i + |sign| < |s| && (forall k :: 0 <= k < i ==> space(s[k])) && SpacesApart(space)
    requires sign in {"", "+", "-"} && s[i..i + |sign|] == sign && d < 36 && s[i + |sign|] == Small(d)
    ensures SignAt(s, space) == (i + |sign|, sign == "-")
  {
    assert sign != "" ==> s[i] == sign[0];
    SpacesIs(s, space, 0, i);
  }

  /** The numeral stands at `k` and is all of the number there. */
  lemma NumeralRuns(s: string, k: nat, n: nat, b: nat)
    requires 2 <= b <= 36 && Stands(s, k, n, b)
    ensures Run(s, k, b) == |Numeral(n, b)| && Value(s, k, Run(s, k, b), b) == n
    ensures IsDigit(At(s, k), b) && (At(s, k) == '0' ==> n == 0)
    ensures !HexLetter(At(s, k + |Numeral(n, b)|))
  {
    hide Numeral, Ends, Run, Value;
    var e := k + |Numeral(n, b)|;
    NumeralValue(s, k, n, b);
    NoDigitEnds(s, e, s[e..], b);
    RunIs(s, k, |Numeral(n, b)|, b);
  }

  ghost predicate Stands(s: string, k: nat, n: nat, b: nat)
    requires 2 <= b <= 36
  {
    var e := k + |Numeral(n, b)|;
    e <= |s| && s[k..e] == Numeral(n, b) && Ends(s[e..], b)
  }

  lemma PlainReads(s: string, space: char -> bool, j: nat, negative: bool, base: int, n: nat, b: nat)
    requires 2 <= b <= 36 && b == (if base == 0 then 10 else base) && SignAt(s, space) == (j, negative)
    requires Stands(s, j, n, b)
    ensures Read(s, space, base) == Subject(negative, n, j + |Numeral(n, b)|)
  {
    hide Numeral, Ends, Run, Value, SignAt, IsDigit;
    NumeralRuns(s, j, n, b);
    if At(s, j) == '0' {
      NumeralZero(b);
      NumeralZero(8);
      if base == 0 {
        FewerDigits(s[j + 1..]);
        NumeralRuns(s, j, 0, 8);
      }
    }
  }

  lemma NumeralZero(b: nat)
    requires 2 <= b <= 36
    ensures Numeral(0, b) == "0"
  {
  }

  lemma FewerDigits(tail: string)
    ensures Ends(tail, 10) ==> Ends(tail, 8)
  {
  }

  lemma HexReads(s: string, space: char -> bool, j: nat, negative: bool, base: int, n: nat)
    requires (base == 0 || base == 16) && SignAt(s, space) == (j, negative)
    requires At(s, j) == '0' && HexLetter(At(s, j + 1)) && Stands(s, j + 2, n, 16)
    ensures Read(s, space, base) == Subject(negative, n, j + 2 + |Numeral(n, 16)|)
  {
    hide Numeral, Ends, Run, Value, SignAt, IsDigit;
    NumeralRuns(s, j + 2, n, 16);
  }

  lemma OctalReads(s: string, space: char -> bool, j: nat, negative: bool, n: nat)
    requires SignAt(s, space) == (j, negative) && At(s, j) == '0' && Stands(s, j + 1, n, 8)
    ensures Read(s, space, 0) == Subject(negative, n, j + 1 + |Numeral(n, 8)|)
  {
    hide Numeral, Ends, Value, SignAt;
    NumeralRuns(s, j + 1, n, 8);
    LeadingZero(s, j, |Numeral(n, 8)|, 8);
  }

  lemma {:induction false} LeadingZero(s: string, k: nat, n: nat, b: int)
    requires b > 0 && At(s, k) == '0'
    ensures Value(s, k, n + 1, b) == Value(s, k + 1, n, b)
    decreases n
  {
    hide Shifted;
    if n == 0 {
      ValueNone(s, k, b, 0);
    } else {
      LeadingZero(s, k, n - 1, b);
    }
  }

  /** A number as it is written, after spaces and a sign, with what stands before it and behind
      it: the sign, the number and the end of it are read. */
  lemma NumeralReads(space: char -> bool, base: int, lead: string, sign: string, prefix: string, n: nat, b: nat,
                     tail: string)
    requires 2 <= b <= 36 && BaseOk(base) && Style(base, prefix, b) && Ends(tail, b)
    requires SpacesApart(space) && (forall i :: 0 <= i < |lead| ==> space(lead[i])) && sign in {"", "+", "-"}
    ensures var s, e := lead + sign + prefix + Numeral(n, b) + tail, |lead| + |sign| + |prefix| + |Numeral(n, b)|;
      Read(s, space, base) == Subject(sign == "-", n, e)
  {
    hide Numeral, Ends, Read, SignAt, SpacesApart;
    var m := Numeral(n, b);
    var s := lead + sign + prefix + m + tail;
    var i, j := |lead|, |lead| + |sign|;
    var k, e := j + |prefix|, j + |prefix| + |m|;
    assert s[i..j] == sign && s[j..k] == prefix && s[k..e] == m && s[e..] == tail;
    assert forall x :: 0 <= x < i ==> s[x] == lead[x];
    NumeralFirst(n, b);
    var d :| 0 <= d < b && m[0] == Small(d);
    assert s[k] == s[k..e][0];
    assert prefix != "" ==> s[j] == s[j..k][0];
    assert |prefix| > 1 ==> s[j + 1] == s[j..k][1];
    SignAtIs(s, space, i, sign, if prefix == "" then d else 0);
    if prefix == "" {
      PlainReads(s, space, j, sign == "-", base, n, b);
    } else if b == 16 {
      HexReads(s, space, j, sign == "-", base, n);
    } else {
      OctalReads(s, space, j, sign == "-", n);
    }
  }

  function Clamped(x: int, min: int, max: int): int
    requires min <= max
  {
    if x < min then min else if x > max then max else x
  }

  function WithSign(negative: bool, v: int): int {
    if negative then -v else v
  }

  function Signed(r: Subject): int {
    WithSign(r.negative, r.magnitude)
  }

  /** The value of the unsigned conversion: saturated, or modulo one more than the maximum. */
  function Wrapped(r: Subject, max: nat): nat {
    if r.magnitude > max then max else if r.negative then -(r.magnitude as int) % (max + 1) else r.magnitude
  }

  /** A negative number is counted down from one more than the maximum, a number that is too large
      is the maximum whatever its sign. */
  lemma WrappedIs(m: nat, max: nat)
    ensures Wrapped(Subject(false, m, 0), max) == if m <= max then m else max
    ensures Wrapped(Subject(true, m, 0), max) == if m == 0 then 0 else if m <= max then max + 1 - m else max
  {
    if 0 < m <= max {
      Complement(m, max + 1);
    }
  }

  lemma Complement(m: nat, size: nat)
    requires 0 < m < size
    ensures -(m as int) % size == size - m
  {
  }
}

/** The conversions themselves, for any width. */
module WideNumbers {
  import opened NumberSyntax

  /** Division and remainder that truncate toward zero. */
  function Quotient(x: int, y: int): int
    requires y > 0
  {
    if x >= 0 then x / y else -(-x / y)
  }

  function Remainder(x: int, y: int): int
    requires y > 0
  {
    x - Quotient(x, y) * y
  }

  /** A result of the type's arithmetic, which must not overflow. */
  function Fit(x: int, min: int, max: int): int
    requires min <= x <= max
  {
    x
  }

  lemma Limits(max: int, base: int, acc: nat, i: nat)
    requires 2 <= base && i < base && 0 < max
    ensures Shifted(acc, base, i) <= max <==> !(acc > max / base || (acc == max / base && i > max % base))
    ensures acc <= max / base ==> acc * base <= max
  {
    var q, r := max / base, max % base;
    assert max == q * base + r;
    if acc > q {
      Grows(q + 1, acc, base);
      assert (q + 1) * base == q * base + base;
    } else if acc < q {
      Grows(acc + 1, q, base);
      assert (acc + 1) * base == acc * base + base;
    }
  }

  lemma Grows(x: int, y: int, base: int)
    requires x <= y && base > 0
    ensures x * base <= y * base
  {
  }

  /** Spaces and a sign. */
  method ScanSign(s: string, space: char -> bool) returns (j: nat, negative: bool)
    requires !space('\0')
    ensures (j, negative) == SignAt(s, space)
  {
    j := 0;
    while space(At(s, j))
      invariant j <= |s| && Spaces(s, space, 0) == Spaces(s, space, j)
      decreases |s| - j
    {
      j := j + 1;
    }
    negative := At(s, j) == '-';
    if At(s, j) == '-' || At(s, j) == '+' {
      j := j + 1;
    }
  }

  /** The position of the first digit, the base, and the sign. */
  method Scan(s: string, space: char -> bool, base0: int) returns (k: nat, base: int, negative: bool)
    requires BaseOk(base0) && !space('\0')
    ensures k <= |s| && 2 <= base <= 36 && negative == SignAt(s, space).1
    ensures !BarePrefix(s, space, base0) ==> Read(s, space, base0) == Number(s, k, base, negative)
    ensures BarePrefix(s, space, base0) ==> Run(s, k, base) == 0
  {
    hide SignAt;
    var j: nat;
    j, negative := ScanSign(s, space);
    base := base0;
    if (base == 0 || base == 16) && At(s, j) == '0' && HexLetter(At(s, j + 1)) {
      k := j + 2;
      base := 16;
    } else {
      k := j;
    }
    if base == 0 {
      base := if At(s, k) == '0' then 8 else 10;
    }
  }

  function Number(s: string, k: nat, base: int, negative: bool): Subject
    requires k <= |s| && 2 <= base
  {
    var n := Run(s, k, base);
    Subject(negative, Value(s, k, n, base), if n > 0 then k + n else 0)
  }

  lemma RunStep(s: string, k: nat, base: int, n: nat)
    requires k <= |s| && n <= Run(s, k, base)
    ensures k + n <= |s| && (n < Run(s, k, base) <==> IsDigit(At(s, k + n), base))
    ensures n < Run(s, k, base) ==> k + n < |s|
  {
    RunDigits(s, k, base);
  }

  lemma ValueStep(s: string, k: nat, n: nat, base: int)
    requires k <= |s| && 2 <= base && n < Run(s, k, base)
    ensures Value(s, k, n + 1, base) == Shifted(Value(s, k, n, base), base, Worth(At(s, k + n)))
  {
    RunDigits(s, k, base);
  }

  datatype Errno = None | EINVAL | ERANGE

  /** Where the number ends as reported: at the beginning of the string after a bare prefix. */
  function ReportedEnd(s: string, space: char -> bool, base: int): nat
    requires BaseOk(base)
  {
    if BarePrefix(s, space, base) then 0 else Read(s, space, base).end
  }

  /** One digit of the signed conversion: the state is the number so far, or saturated. */
  method AddSigned(acc0: int, any0: int, i: nat, base: int, negative: bool, cutoff: int, cutlim: int, min: int,
                   max: int, ghost v: nat)
    returns (acc: int, any: int, range: bool)
    requires 2 <= base && i < base && min < 0 < max && any0 >= 0
    requires cutoff == Quotient(if negative then min else max, base)
      && cutlim == (if negative then -min else max) % base
    requires v <= (if negative then -min else max) && acc0 == WithSign(negative, v)
    ensures var limit := if negative then -min else max;
      var w := Shifted(v, base, i);
      if w > limit then range && any == -1 && acc == (if negative then min else max)
      else !range && any == 1 && acc == WithSign(negative, w)
  {
    hide Shifted;
    range := false;
    acc := acc0;
    if negative {
      Limits(-min, base, v, i);
      Mirror(v, base, min);
      if acc < cutoff || (acc == cutoff && i > cutlim) {
        any, acc, range := -1, min, true;
      } else {
        any := 1;
        ShiftedIs(v, base, i);
        acc := Fit(acc * base, min, max);
        acc := Fit(acc - i, min, max);
      }
    } else {
      Limits(max, base, v, i);
      if acc > cutoff || (acc == cutoff && i > cutlim) {
        any, acc, range := -1, max, true;
      } else {
        any := 1;
        ShiftedIs(v, base, i);
        acc := Fit(acc * base, min, max);
        acc := Fit(acc + i, min, max);
      }
    }
  }

  lemma Mirror(v: int, base: int, min: int)
    requires base > 0 && min < 0
    ensures Quotient(min, base) == -(-min / base) && (-v) * base == -(v * base)
  {
  }

  lemma ShiftedIs(v: nat, base: int, i: nat)
    requires base > 0
    ensures Shifted(v, base, i) == v * base + i && v * base >= 0
  {
    Product(v, base);
  }

  /** The remainder of the lowest value, with the adjustment for compilers that round down. */
  method Cut(min: int, max: int, base: int, negative: bool) returns (cutoff: int, cutlim: int)
    requires 2 <= base && min < 0 < max
    ensures cutoff == Quotient(if negative then min else max, base) && cutlim == (if negative then -min else max) % base
  {
    cutoff := if negative then min else max;
    cutlim := Remainder(cutoff, base);
    DivMod(cutoff, base);
    DivMod(-cutoff, base);
    cutoff := Quotient(cutoff, base);
    if negative {
      if cutlim > 0 {
        cutlim := cutlim - base;
        cutoff := cutoff + 1;
      }
      cutlim := -cutlim;
    }
  }

  lemma DivMod(x: int, base: int)
    requires base > 0
    ensures x == x / base * base + x % base
    ensures x < 0 ==> Remainder(x, base) == -((-x) % base)
    ensures x >= 0 ==> Remainder(x, base) == x % base
  {
  }

  /** The signed conversion: the value clamped to the range of the type. */
  method ToSigned(s: string, space: char -> bool, base0: int, min: int, max: int)
    returns (acc: int, end: nat, errno: Errno)
    requires !space('\0') && min < 0 < max
    ensures !BaseOk(base0) ==> errno == EINVAL && acc == 0
    ensures BaseOk(base0) ==>
      var exact := Signed(Read(s, space, base0));
      acc == Clamped(exact, min, max) && errno == (if min <= exact <= max then None else ERANGE)
      && end == ReportedEnd(s, space, base0)
  {
    hide Shifted, Value, Run, Read, BarePrefix, Spaces, SignAt, Digit, Quotient, ReportedEnd, Number;
    if base0 != 0 && (base0 < 2 || base0 > 36) {
      return 0, 0, EINVAL;
    }
    errno := None;
    var start, base, negative := Scan(s, space, base0);
    var cutoff, cutlim := Cut(min, max, base, negative);
    var k, any := start, 0;
    ghost var limit := if negative then -min else max;
    acc := 0;
    ghost var n, v := 0, 0;
    NoDigits(s, start, base);
    RunDigits(s, start, base);
    while true
      invariant 0 <= n <= Run(s, start, base) && k == start + n && (any == 0 <==> n == 0) && -1 <= any <= 1
        && v == Value(s, start, n, base)
      invariant any >= 0 ==> v <= limit && acc == WithSign(negative, v) && errno == None
      invariant any < 0 ==> v > limit && acc == (if negative then min else max) && errno == ERANGE
      decreases |s| - k
    {
      RunStep(s, start, base, n);
      var i := Digit(At(s, k));
      if i == -1 {
        break;
      }
      if i >= base {
        break;
      }
      ValueStep(s, start, n, base);
      if any >= 0 {
        var range: bool;
        acc, any, range := AddSigned(acc, any, i, base, negative, cutoff, cutlim, min, max, v);
        if range {
          errno := ERANGE;
        }
      }
      v := Shifted(v, base, i);
      k := k + 1;
      n := n + 1;
    }
    RunStep(s, start, base, n);
    end := if any != 0 then k else 0;
    Concluded(s, space, base0, start, base, negative);
  }

  lemma NoDigits(s: string, k: nat, base: int)
    requires k <= |s| && base > 0
    ensures Value(s, k, 0, base) == 0
  {
  }

  /** What has been scanned is what is to be read, or a bare prefix that has no digits. */
  lemma Concluded(s: string, space: char -> bool, base0: int, k: nat, base: int, negative: bool)
    requires BaseOk(base0) && k <= |s| && 2 <= base && negative == SignAt(s, space).1
    requires !BarePrefix(s, space, base0) ==> Read(s, space, base0) == Number(s, k, base, negative)
    requires BarePrefix(s, space, base0) ==> Run(s, k, base) == 0
    ensures var n := Run(s, k, base);
      Read(s, space, base0).negative == negative && Read(s, space, base0).magnitude == Value(s, k, n, base)
      && ReportedEnd(s, space, base0) == if n > 0 then k + n else 0
  {
    if BarePrefix(s, space, base0) {
      BareIsZero(s, space, base0);
    }
  }

  predicate IsCut(max: nat, base: int, cutoff: nat, cutlim: nat) {
    base > 0 && cutoff == max / base && cutlim == max % base
  }

  method CutUnsigned(max: nat, base: int) returns (cutoff: nat, cutlim: nat)
    requires base > 0
    ensures IsCut(max, base, cutoff, cutlim)
  {
    cutoff, cutlim := max / base, max % base;
  }

  method AddUnsigned(acc0: nat, any0: int, i: nat, base: int, cutoff: nat, cutlim: nat, max: nat)
    returns (acc: nat, any: int, range: bool)
    requires 2 <= base && i < base && 0 < max && acc0 <= max && IsCut(max, base, cutoff, cutlim)
    ensures var w := Shifted(acc0, base, i);
      if w > max then range && any == -1 && acc == max else !range && any == 1 && acc == w
  {
    hide Shifted;
    acc, range := acc0, false;
    Limits(max, base, acc, i);
    if acc > cutoff || (acc == cutoff && i > cutlim) {
      any, acc, range := -1, max, true;
    } else {
      any := 1;
      ShiftedIs(acc, base, i);
      acc := Fit(acc * base, 0, max);
      acc := Fit(acc + i, 0, max);
    }
  }

  /** The unsigned conversion: saturated, or modulo one more than the maximum. */
  method ToUnsigned(s: string, space: char -> bool, base0: int, max: nat) returns (acc: nat, end: nat, errno: Errno)
    requires !space('\0') && 0 < max
    ensures !BaseOk(base0) ==> errno == EINVAL && acc == 0
    ensures BaseOk(base0) ==>
      var r := Read(s, space, base0);
      acc == Wrapped(r, max) && errno == (if r.magnitude <= max then None else ERANGE)
      && end == ReportedEnd(s, space, base0)
  {
    hide Shifted, Value, Run, Read, BarePrefix, Spaces, SignAt, Digit, Quotient, ReportedEnd, Number, Wrapped, IsCut;
    if base0 != 0 && (base0 < 2 || base0 > 36) {
      return 0, 0, EINVAL;
    }
    errno := None;
    var start, base, negative := Scan(s, space, base0);
    var cutoff, cutlim := CutUnsigned(max, base);
    var k, any := start, 0;
    acc := 0;
    ghost var n, v := 0, 0;
    NoDigits(s, start, base);
    RunDigits(s, start, base);
    while true
      invariant 0 <= n <= Run(s, start, base) && k == start + n && (any == 0 <==> n == 0) && -1 <= any <= 1
        && v == Value(s, start, n, base)
      invariant any >= 0 ==> v <= max && acc == v && errno == None
      invariant any < 0 ==> v > max && acc == max && errno == ERANGE
      decreases |s| - k
    {
      RunStep(s, start, base, n);
      var i := Digit(At(s, k));
      if i == -1 {
        break;
      }
      if i >= base {
        break;
      }
      ValueStep(s, start, n, base);
      if any >= 0 {
        var range: bool;
        acc, any, range := AddUnsigned(acc, any, i, base, cutoff, cutlim, max);
        if range {
          errno := ERANGE;
        }
      }
      v := Shifted(v, base, i);
      k := k + 1;
      n := n + 1;
    }
    RunStep(s, start, base, n);
    Concluded(s, space, base0, start, base, negative);
    WrappedIs(Read(s, space, base0), max);
    if negative && any > 0 {
      acc := Negated(acc, max);
    }
    end := if any != 0 then k else 0;
  }

  lemma WrappedIs(r: Subject, max: nat)
    ensures Wrapped(r, max) == if r.magnitude > max then max else if r.negative then Negated(r.magnitude, max)
      else r.magnitude
    ensures Negated(0, max) == 0
  {
  }

  /** Negation of an unsigned number of the type. */
  function Negated(x: nat, max: nat): (r: nat)
    requires x <= max
    ensures r <= max && r == -(x as int) % (max + 1)
  {
    ModNegated(x, max);
    if x == 0 then 0 else max + 1 - x
  }

  lemma ModNegated(x: nat, max: nat)
    requires x <= max
    ensures -(x as int) % (max + 1) == if x == 0 then 0 else max + 1 - x
  {
    if x > 0 {
      assert -(x as int) == -1 * (max + 1) + (max + 1 - x);
    }
  }

  /** The end is reported as the standard has it exactly when there is no bare prefix. */
  lemma EndIsRightIff(s: string, space: char -> bool, base: int)
    requires BaseOk(base)
    ensures ReportedEnd(s, space, base) == Read(s, space, base).end <==> !BarePrefix(s, space, base)
  {
    if BarePrefix(s, space, base) {
      BareIsZero(s, space, base);
    }
  }

  /** After `0x` nothing is said to have been read, and should have been one character. */
  lemma BarePrefixEnd(space: char -> bool)
    requires !space('0')
    ensures ReportedEnd("0x", space, 16) == 0 && Read("0x", space, 16).end == 1
  {
    assert SignAt("0x", space) == (0, false);
    assert BarePrefix("0x", space, 16);
    BareIsZero("0x", space, 16);
  }
}
