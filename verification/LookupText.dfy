/** Lookup tables as text: a key and a datum to a line, comments, blanks, and case. */
module LookupText {
  import opened CitrusDbPlacement
  import opened Basics

  predicate IsEol(c: byte) {
    c == 10 || c == 13
  }

  predicate IsSpace(c: byte) {
    c == 32 || c == 9 || IsEol(c) || c == 12 || c == 11
  }

  function Lower(c: byte): byte {
    if 65 <= c <= 90 then c + 32 else c
  }

  function Upper(c: byte): byte {
    if 97 <= c <= 122 then c - 32 else c
  }

  function Lowered(s: seq<byte>): (r: seq<byte>)
    ensures |r| == |s|
  {
    seq(|s|, i requires 0 <= i < |s| => Lower(s[i]))
  }

  /** The end of the line without its comment. */
  function Comment(s: seq<byte>, i: nat): (r: nat)
    requires i <= |s|
    ensures i <= r <= |s| && (r == |s| || s[r] == 35) && forall k :: i <= k < r ==> s[k] != 35
    decreases |s| - i
  {
    if i < |s| && s[i] != 35 then Comment(s, i + 1) else i
  }

  /** The first position that is no space. */
  function Skip(s: seq<byte>, i: nat, end: nat): (r: nat)
    requires i <= end <= |s|
    ensures i <= r <= end && (r == end || !IsSpace(s[r])) && forall k :: i <= k < r ==> IsSpace(s[k])
    decreases end - i
  {
    if i < end && IsSpace(s[i]) then Skip(s, i + 1, end) else i
  }

  predicate EndsWord(c: byte) {
    IsSpace(c) || c == 0
  }

  /** The end of the word. */
  function Word(s: seq<byte>, i: nat, end: nat): (r: nat)
    requires i <= end <= |s|
    ensures i <= r <= end && (r == end || EndsWord(s[r])) && forall k :: i <= k < r ==> !EndsWord(s[k])
    decreases end - i
  {
    if i < end && !EndsWord(s[i]) then Word(s, i + 1, end) else i
  }

  /** The end without the spaces in front of it. */
  function Kept(s: seq<byte>, i: nat, end: nat): (r: nat)
    requires i <= end <= |s|
    ensures i <= r <= end && (r == i || !IsSpace(s[r - 1])) && forall k :: r <= k < end ==> IsSpace(s[k])
  {
    if i < end && IsSpace(s[end - 1]) then Kept(s, i, end - 1) else end
  }

  datatype Field = Field(key: seq<byte>, data: seq<byte>)

  /** What the compiler reads from a line; a word that ends at once, at a NUL, is no key. */
  function Compiled(s: seq<byte>): Option<Field> {
    var e := Comment(s, 0);
    var i := Skip(s, 0, e);
    var j := Word(s, i, e);
    if i == j then None
    else
      var d := Skip(s, j, e);
      Some(Field(s[i..j], s[d..Kept(s, d, e)]))
  }

  /** What the reader of text reads from it; there such a word is the empty key. */
  function Plain(s: seq<byte>): Option<Field> {
    var e := Kept(s, 0, Comment(s, 0));
    if e == 0 then None
    else
      var i := Skip(s, 0, e);
      var j := Word(s, i, e);
      Some(Field(s[i..j], s[Skip(s, j, e)..e]))
  }

  /** Both read the same from a line exactly if it does not begin with a NUL. */
  lemma PlainIsCompiled(s: seq<byte>)
    ensures Plain(s) == Compiled(s) <==> var i := Skip(s, 0, Comment(s, 0)); i == Comment(s, 0) || s[i] != 0
  {
    hide IsSpace, Comment, Skip, Word, Kept;
    var e := Comment(s, 0);
    var k := Kept(s, 0, e);
    var i := Skip(s, 0, e);
    if i < e {
      assert i < k && Skip(s, 0, k) == i;
      var j := Word(s, i, e);
      if i < j {
        assert !EndsWord(s[j - 1]);
        assert j <= k;
        assert Word(s, i, k) == j;
        var d := Skip(s, j, e);
        if d < e {
          assert d < k && Skip(s, j, k) == d && Kept(s, d, e) == k;
        } else {
          assert k == j && s[j..j] == [] && s[d..d] == [];
        }
      }
    }
  }

  lemma SameWithoutNul(s: seq<byte>)
    requires 0 !in s
    ensures Plain(s) == Compiled(s)
  {
    hide Plain, Compiled;
    PlainIsCompiled(s);
    var i := Skip(s, 0, Comment(s, 0));
    assert i < Comment(s, 0) ==> s[i] in s;
  }

  /** A line of a NUL. */
  lemma NulLine()
    ensures Compiled([0]) == None && Plain([0]) == Some(Field([], [0]))
  {
    assert Comment([0], 0) == 1 && Kept([0], 0, 1) == 1 && Skip([0], 0, 1) == 0 && Word([0], 0, 1) == 0;
    assert [0][0..0] == [] && [0][0..1] == [0];
  }

  /** What is read from a line, by the reader of text or by the compiler. */
  function LineField(s: seq<byte>, plain: bool): Option<Field> {
    if plain then Plain(s) else Compiled(s)
  }

  // ----- lines that are written ---------------------------------------------------------

  /** Nothing but spaces, tabs, newlines, vertical tabs, form feeds and carriage returns. */
  ghost predicate Blank(s: seq<byte>) {
    forall i :: 0 <= i < |s| ==> s[i] in {9, 10, 11, 12, 13, 32}
  }

  /** No blank, NUL or number sign. */
  ghost predicate Solid(s: seq<byte>) {
    forall i :: 0 <= i < |s| ==> s[i] !in {0, 9, 10, 11, 12, 13, 32, 35}
  }

  /** No blank at either end, and no number sign. */
  ghost predicate Tight(s: seq<byte>) {
    && (s != [] ==> s[0] !in {9, 10, 11, 12, 13, 32} && s[|s| - 1] !in {9, 10, 11, 12, 13, 32})
    && forall i :: 0 <= i < |s| ==> s[i] != 35
  }

  /** Nothing, or a comment. */
  ghost predicate Remark(s: seq<byte>) {
    s != [] ==> s[0] == 35
  }

  lemma SpacesAre(c: byte)
    ensures IsSpace(c) <==> c in {9, 10, 11, 12, 13, 32}
  {
  }

  /** Key and datum read back from a line, whatever blanks are around them and whatever comment
      is behind. */
  lemma LineReadsBack(lead: seq<byte>, key: seq<byte>, gap: seq<byte>, data: seq<byte>, trail: seq<byte>,
                      remark: seq<byte>)
    requires Blank(lead) && Blank(gap) && Blank(trail) && Remark(remark) && Tight(data)
    requires Solid(key) && key != [] && (gap == [] ==> data == [])
    ensures var s := lead + key + gap + data + trail + remark;
      Plain(s) == Compiled(s) == Some(Field(key, data))
  {
    hide IsSpace, Plain, Compiled;
    var i, j := |lead|, |lead| + |key|;
    var d, k := j + |gap|, j + |gap| + |data|;
    Parts(lead, key, gap, data, trail, remark);
    forall c: byte
      ensures IsSpace(c) <==> c in {9, 10, 11, 12, 13, 32}
    {
      SpacesAre(c);
    }
    var s := lead + key + gap + data + trail + remark;
    assert s[i..j] == key && s[d..k] == data;
    ReadsAt(s, i, j, d, k, k + |trail|);
  }

  lemma ReadsAt(s: seq<byte>, i: nat, j: nat, d: nat, k: nat, e: nat)
    requires i < j <= d <= k <= e <= |s| && (d == j ==> k == j)
    requires (forall x :: 0 <= x < i ==> IsSpace(s[x])) && (forall x :: i <= x < j ==> !EndsWord(s[x]))
    requires (forall x :: j <= x < d ==> IsSpace(s[x])) && (forall x :: k <= x < e ==> IsSpace(s[x]))
    requires d < k ==> !IsSpace(s[d]) && !IsSpace(s[k - 1])
    requires (forall x :: 0 <= x < e ==> s[x] != 35) && (e < |s| ==> s[e] == 35)
    ensures Plain(s) == Compiled(s) == Some(Field(s[i..j], s[d..k]))
  {
    hide IsSpace, Comment, Skip, Word, Kept;
    assert Comment(s, 0) == e;
    assert !EndsWord(s[i]) && Skip(s, 0, e) == i;
    assert j < e ==> EndsWord(s[j]);
    assert Word(s, i, e) == j;
    PlainIsCompiled(s);
    if d == k {
      assert forall x :: j <= x < e ==> IsSpace(s[x]);
      assert Skip(s, j, e) == e && Kept(s, e, e) == e && s[e..e] == [] == s[d..k];
    } else {
      assert Skip(s, j, e) == d;
      assert Kept(s, d, e) == k;
    }
  }

  lemma Parts(lead: seq<byte>, key: seq<byte>, gap: seq<byte>, data: seq<byte>, trail: seq<byte>, remark: seq<byte>)
    ensures var s := lead + key + gap + data + trail + remark;
      var i, j := |lead|, |lead| + |key|;
      var d, k := j + |gap|, j + |gap| + |data|;
      var e := |s| - |remark|;
      && (forall x :: 0 <= x < i ==> s[x] == lead[x])
      && (forall x :: i <= x < j ==> s[x] == key[x - i])
      && (forall x :: j <= x < d ==> s[x] == gap[x - j])
      && (forall x :: d <= x < k ==> s[x] == data[x - d])
      && (forall x :: k <= x < e ==> s[x] == trail[x - k])
      && (e < |s| ==> s[e] == remark[0])
  {
    var a := lead + key;
    var b := a + gap;
    var c := b + data;
    var t := c + trail;
    var s := t + remark;
    assert forall x :: 0 <= x < |a| ==> s[x] == t[x] == c[x] == b[x] == a[x];
    assert forall x :: |a| <= x < |b| ==> s[x] == t[x] == c[x] == b[x] == gap[x - |a|];
    assert forall x :: |b| <= x < |c| ==> s[x] == t[x] == c[x] == data[x - |b|];
    assert forall x :: |c| <= x < |t| ==> s[x] == t[x] == trail[x - |c|];
  }

  /** A line of blanks and a comment holds no field. */
  lemma NoField(lead: seq<byte>, remark: seq<byte>)
    requires Blank(lead) && Remark(remark)
    ensures Plain(lead + remark) == Compiled(lead + remark) == None
  {
    hide IsSpace, Comment, Skip, Word, Kept;
    var s := lead + remark;
    forall c: byte
      ensures IsSpace(c) <==> c in {9, 10, 11, 12, 13, 32}
    {
      SpacesAre(c);
    }
    assert forall x :: 0 <= x < |lead| ==> s[x] == lead[x];
    assert remark != [] ==> s[|lead|] == 35;
    assert Comment(s, 0) == |lead|;
    assert Skip(s, 0, |lead|) == |lead|;
    PlainIsCompiled(s);
  }

  // ----- lines --------------------------------------------------------------------

  /** The length of the first line, with its end; lines end in newlines, and for the reader
      of text also in carriage returns. */
  function LineLength(text: seq<byte>, plain: bool): (n: nat)
    requires text != []
    ensures 0 < n <= |text|
  {
    if text[0] == 10 || (plain && text[0] == 13) || |text| == 1 then 1 else 1 + LineLength(text[1..], plain)
  }

  /** A line ends behind its first newline, for the reader of text also behind a carriage return,
      or with the text. */
  lemma {:induction false} LineLengthIff(text: seq<byte>, plain: bool, n: nat)
    requires text != []
    ensures n == LineLength(text, plain)
      <==> && 0 < n <= |text| && (n == |text| || text[n - 1] == 10 || (plain && text[n - 1] == 13))
           && forall k :: 0 <= k < n - 1 ==> text[k] != 10 && !(plain && text[k] == 13)
  {
    if !(text[0] == 10 || (plain && text[0] == 13) || |text| == 1) {
      LineLengthIff(text[1..], plain, LineLength(text[1..], plain));
      if n > 0 {
        LineLengthIff(text[1..], plain, n - 1);
      }
    }
  }

  /** The fields of all lines that have any. */
  function Fields(text: seq<byte>, plain: bool): seq<Field>
    decreases |text|
  {
    if text == [] then []
    else
      var n := LineLength(text, plain);
      (match LineField(text[..n], plain) case None => [] case Some(f) => [f]) + Fields(text[n..], plain)
  }

  /** A field that can be written on one line. */
  ghost predicate Writable(f: Field) {
    Solid(f.key) && f.key != [] && Tight(f.data) && 10 !in f.data && 13 !in f.data
  }

  function Row(f: Field, sep: byte): seq<byte> {
    f.key + [sep] + f.data + [10]
  }

  function Rows(fs: seq<Field>, sep: byte): seq<byte> {
    if fs == [] then [] else Row(fs[0], sep) + Rows(fs[1..], sep)
  }

  lemma RowReadsBack(f: Field, sep: byte, rest: seq<byte>, plain: bool)
    requires Writable(f) && sep in {9, 11, 12, 32}
    ensures |Row(f, sep)| > 0 && LineLength(Row(f, sep) + rest, plain) == |Row(f, sep)|
    ensures LineField(Row(f, sep), plain) == Some(f)
  {
    hide Plain, Compiled, LineLength;
    var row := Row(f, sep);
    assert row == [] + f.key + [sep] + f.data + [10] + [];
    LineReadsBack([], f.key, [sep], f.data, [10], []);
    forall k | 0 <= k < |row| - 1
      ensures row[k] != 10 && row[k] != 13
    {
      var d := |f.key| + 1;
      assert row[k] == if k < |f.key| then f.key[k] else if k < d then sep else f.data[k - d];
      assert k >= d ==> row[k] in f.data;
    }
    LineLengthIff(row + rest, plain, |row|);
  }

  /** A table written one entry to a line, in either form of reading. */
  lemma {:induction false} TableReadsBack(fs: seq<Field>, sep: byte, plain: bool)
    requires (forall f :: f in fs ==> Writable(f)) && sep in {9, 11, 12, 32}
    ensures Fields(Rows(fs, sep), plain) == fs
  {
    hide Writable, LineLength, LineField, Row;
    if fs != [] {
      var row, rest := Row(fs[0], sep), Rows(fs[1..], sep);
      RowReadsBack(fs[0], sep, rest, plain);
      TableReadsBack(fs[1..], sep, plain);
      assert Rows(fs, sep) == row + rest;
      assert (row + rest)[..|row|] == row && (row + rest)[|row|..] == rest;
    }
  }

  /** Carriage returns only in front of newlines, or at the end. */
  ghost predicate Clean(text: seq<byte>) {
    forall i :: 0 <= i < |text| && text[i] == 13 ==> i + 1 == |text| || text[i + 1] == 10
  }

  /** The first carriage return of a line is the end of what counts in it. */
  lemma {:induction false} LineEnds(text: seq<byte>)
    requires text != [] && Clean(text)
    ensures var n, p := LineLength(text, false), LineLength(text, true);
      n == p || (n == p + 1 && text[p - 1] == 13 && text[p] == 10)
  {
    if !(text[0] == 10 || |text| == 1) {
      if text[0] == 13 {
        assert text[1] == 10;
        assert LineLength(text[1..], false) == 1;
      } else {
        LineEnds(text[1..]);
      }
    }
  }

  /** The same up to `e`, and at most one space more behind it. */
  ghost predicate Longer(line: seq<byte>, s: seq<byte>, e: nat, e': nat) {
    && e <= |line| && e' <= |s| && (forall k :: 0 <= k < e ==> k < |s| && s[k] == line[k])
    && (e' == e || (e' == e + 1 && IsSpace(s[e])))
  }

  lemma SkipLonger(line: seq<byte>, s: seq<byte>, i: nat, e: nat, e': nat)
    requires Longer(line, s, e, e') && i <= e
    ensures Skip(s, i, e') == if Skip(line, i, e) < e then Skip(line, i, e) else e'
  {
    hide IsSpace, Skip;
    var r := Skip(line, i, e);
    assert forall k :: i <= k < r ==> IsSpace(line[k]) && s[k] == line[k];
  }

  lemma WordLonger(line: seq<byte>, s: seq<byte>, i: nat, e: nat, e': nat)
    requires Longer(line, s, e, e') && i <= e
    ensures Word(s, i, e') == Word(line, i, e)
  {
    hide IsSpace, Word;
    var r := Word(line, i, e);
    assert forall k :: i <= k < r ==> !EndsWord(line[k]) && s[k] == line[k];
  }

  lemma KeptLonger(line: seq<byte>, s: seq<byte>, i: nat, e: nat, e': nat)
    requires Longer(line, s, e, e') && i <= e
    ensures Kept(s, i, e') == Kept(line, i, e) || (i == e && Kept(line, i, e) == e)
  {
    hide IsSpace, Kept;
    var r := Kept(line, i, e);
    assert forall k :: r <= k < e ==> IsSpace(line[k]) && s[k] == line[k];
    if i < r {
      assert s[r - 1] == line[r - 1];
    }
  }

  lemma SameSlice(line: seq<byte>, s: seq<byte>, a: nat, b: nat, e: nat, e': nat)
    requires Longer(line, s, e, e') && a <= b <= e
    ensures b <= |s| && s[a..b] == line[a..b]
  {
  }

  lemma DataLonger(line: seq<byte>, s: seq<byte>, j: nat, e: nat, e': nat)
    requires Longer(line, s, e, e') && j <= e <= |line| && e' <= |s|
    ensures var d, d' := Skip(line, j, e), Skip(s, j, e');
      s[d'..Kept(s, d', e')] == line[d..Kept(line, d, e)]
  {
    hide IsSpace, Skip, Kept, Longer;
    SkipLonger(line, s, j, e, e');
    var d := Skip(line, j, e);
    KeptLonger(line, s, d, e, e');
    if d < e {
      SameSlice(line, s, d, Kept(line, d, e), e, e');
    } else {
      assert s[e'..e'] == [] == line[e..e];
    }
  }

  /** What is read from a line depends on that part of it only. */
  lemma CompiledLonger(line: seq<byte>, s: seq<byte>)
    requires Longer(line, s, Comment(line, 0), Comment(s, 0))
    ensures Compiled(s) == Compiled(line)
  {
    hide IsSpace, Comment, Skip, Word, Kept, Longer;
    var e, e' := Comment(line, 0), Comment(s, 0);
    var i := Skip(line, 0, e);
    SkipLonger(line, s, 0, e, e');
    if i < e {
      WordLonger(line, s, i, e, e');
      SameSlice(line, s, i, Word(line, i, e), e, e');
      DataLonger(line, s, Word(line, i, e), e, e');
    }
  }

  /** A newline at the end of a line does not count. */
  lemma NewlineMore(line: seq<byte>)
    ensures Compiled(line + [10]) == Compiled(line)
    ensures Compiled([10]) == None
  {
    hide Comment, Skip, Word, Kept, Compiled;
    var s, e := line + [10], Comment(line, 0);
    assert forall k :: 0 <= k < |line| ==> s[k] == line[k];
    assert s[|line|] == 10 && IsSpace(10);
    CompiledLonger(line, s);
    BareNewline();
  }

  lemma BareNewline()
    ensures Compiled([10]) == None
  {
    assert Comment([10], 0) == 1 && Skip([10], 0, 1) == 1;
  }

  lemma OneNewline(rest: seq<byte>)
    requires rest != [] && rest[0] == 10
    ensures LineLength(rest, true) == 1
  {
  }

  /** On clean text without NULs both ways of reading lines give the same fields. */
  lemma {:induction false} SameFields(text: seq<byte>)
    requires Clean(text) && 0 !in text
    ensures Fields(text, true) == Fields(text, false)
    decreases |text|
  {
    hide Compiled, Plain, LineLength;
    if text != [] {
      var n, p := LineLength(text, false), LineLength(text, true);
      LineEnds(text);
      SameFields(text[n..]);
      SameWithoutNul(text[..p]);
      if n == p + 1 {
        var rest := text[p..];
        assert rest[0] == 10 && rest[..1] == [10] && rest[1..] == text[n..];
        OneNewline(rest);
        NewlineMore(text[..p]);
        SameWithoutNul([10]);
        assert text[..n] == text[..p] + [10];
        assert Fields(rest, true) == [] + Fields(text[n..], true);
      }
    }
  }

  // ----- records --------------------------------------------------------------------

  /** An entry of the database for a field: its key in lower case, its datum as a string. */
  function ItemFor(f: Field): Item {
    Item(Lowered(f.key), f.data + [0])
  }

  function ItemsFor(fs: seq<Field>): (r: seq<Item>)
    ensures |r| == |fs|
  {
    seq(|fs|, i requires 0 <= i < |fs| => ItemFor(fs[i]))
  }

  /** The datum of the first field with the key, whatever the case. */
  function Answer(fs: seq<Field>, key: seq<byte>): Option<seq<byte>> {
    if fs == [] then None else if Lowered(fs[0].key) == Lowered(key) then Some(fs[0].data) else Answer(fs[1..], key)
  }

  /** A string ends at its first NUL. */
  function CString(s: seq<byte>): (r: seq<byte>)
    ensures 0 !in r
  {
    if s == [] || s[0] == 0 then [] else [s[0]] + CString(s[1..])
  }

  /** `snprintf` into a buffer, which holds one less than its size. */
  function Printed(s: seq<byte>, size: nat): (r: seq<byte>)
    requires size > 0
    ensures |r| < size && 0 !in r
  {
    var c := CString(s);
    if |c| < size then c else c[..size - 1]
  }

  lemma PrintedWhole(s: seq<byte>, size: nat)
    requires size > 0
    ensures 0 !in Printed(s, size)
    ensures 0 !in s ==> Printed(s, size) == if |s| < size then s else s[..size - 1]
  {
    if 0 !in s {
      CStringWhole(s);
    }
  }

  /** One character more. */
  lemma PrintedStep(s: seq<byte>, n: nat)
    ensures Printed(s, n + 1) == if n == 0 || s == [] || s[0] == 0 then [] else [s[0]] + Printed(s[1..], n)
  {
  }

  /** Printing what has been cut before gives the same exactly if nothing was missing. */
  lemma PrintedTwice(s: seq<byte>, cut: nat, size: nat)
    requires cut > 0 && size > 0 && 0 !in s
    ensures Printed(Printed(s, cut), size) == Printed(s, size) <==> |s| < cut || size <= cut
  {
    PrintedWhole(s, cut);
    PrintedWhole(Printed(s, cut), size);
    PrintedWhole(s, size);
  }

  /** The size of the compiler's buffers for key and datum. */
  const LINE_MAX: nat := 512

  /** What the compiler keeps of a field. */
  function Stored(f: Field): Field {
    Field(Printed(f.key, LINE_MAX), Printed(f.data, LINE_MAX))
  }

  function StoredFields(fs: seq<Field>): (r: seq<Field>)
    ensures |r| == |fs|
  {
    seq(|fs|, i requires 0 <= i < |fs| => Stored(fs[i]))
  }

  lemma {:induction false} CStringWhole(s: seq<byte>)
    requires 0 !in s
    ensures CString(s) == s && CString(s + [0]) == s
  {
    if s == [] {
      assert s + [0] == [0];
    } else {
      assert (s + [0])[1..] == s[1..] + [0];
      CStringWhole(s[1..]);
      assert s == [s[0]] + s[1..];
    }
  }

  /** What the compiler keeps is all of it exactly up to 511 bytes. */
  lemma StoredIff(f: Field)
    requires 0 !in f.key && 0 !in f.data
    ensures Stored(f) == f <==> |f.key| <= 511 && |f.data| <= 511
  {
    PrintedWhole(f.key, 512);
    PrintedWhole(f.data, 512);
  }

  /** Only the 26 capital letters are changed, each to the small one. */
  lemma LoweredLetters()
    ensures Lowered([64, 65, 66, 89, 90, 91, 96, 97, 122, 123]) == [64, 97, 98, 121, 122, 91, 96, 97, 122, 123]
    ensures forall c: byte :: (Lower(c) == c <==> !(65 <= c <= 90)) && (65 <= c <= 90 ==> 97 <= Lower(c) <= 122)
    ensures forall a: byte, b: byte :: 65 <= a <= 90 && 65 <= b <= 90 ==> Lower(a) - Lower(b) == a - b
    ensures forall c: byte :: Upper(Lower(c)) == Upper(c) && Lower(Upper(c)) == Lower(c)
  {
  }

  lemma CaseFolds(a: byte, b: byte)
    ensures Upper(a) == Upper(b) <==> Lower(a) == Lower(b)
    ensures Lower(Lower(a)) == Lower(a)
  {
  }

  lemma LoweredTwice(s: seq<byte>)
    ensures Lowered(Lowered(s)) == Lowered(s)
  {
  }
}
