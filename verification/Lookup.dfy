/** Looking keys up in a table, in its text or in the database compiled from it. */
module Lookup {
  import opened Basics
  import opened CitrusBytes
  import opened CitrusDbFormat
  import opened CitrusDbPlacement
  import opened CitrusMemStream
  import opened CitrusDbSpec
  import opened CitrusDbFactory
  import opened CitrusDb
  import opened CitrusDbRoundTrip
  import opened LookupText

  function LookupMagic(): (m: seq<byte>)
    ensures |m| == 8 && m[..8] == m
  {
    [76, 79, 79, 75, 85, 80, 0, 0]
  }

  // ----- text ------------------------------------------------------------------------

  /** `getln`: the next line with its end. */
  method Getln(ms: MemStream) returns (line: Option<seq<byte>>)
    modifies ms
    ensures old(ms.pos) >= |ms.region| ==> line == None && ms.pos == old(ms.pos)
    ensures old(ms.pos) < |ms.region| ==>
      var n := LineLength(ms.region[old(ms.pos)..], true);
      line == Some(ms.region[old(ms.pos)..][..n]) && ms.pos == old(ms.pos) + n
  {
    if ms.pos >= |ms.region| {
      return None;
    }
    var h := ms.region[ms.pos..];
    var ret, i := 0, |h|;
    while i > 0
      invariant 0 <= ret <= |h| && i == |h| - ret
      invariant i > 0 ==> LineLength(h, true) == ret + LineLength(h[ret..], true)
      invariant i == 0 ==> LineLength(h, true) == ret
    {
      ret := ret + 1;
      if IsEol(h[ret - 1]) {
        break;
      }
      assert ret < |h| ==> h[ret - 1..][1..] == h[ret..];
      i := i - 1;
    }
    ms.pos := ms.pos + ret;
    line := Some(h[..ret]);
  }

  /** `skip_ws_len`, `skip_nonws_len` and `trunc_rws_len`, by position and end. */
  method SkipWs(s: seq<byte>, p: nat, end: nat) returns (q: nat)
    requires p <= end <= |s|
    ensures q == Skip(s, p, end)
  {
    q := p;
    while q < end && IsSpace(s[q])
      invariant p <= q <= end && Skip(s, q, end) == Skip(s, p, end)
    {
      q := q + 1;
    }
  }

  method SkipNonws(s: seq<byte>, p: nat, end: nat) returns (q: nat)
    requires p <= end <= |s|
    ensures q == Word(s, p, end)
  {
    q := p;
    while q < end && !EndsWord(s[q])
      invariant p <= q <= end && Word(s, q, end) == Word(s, p, end)
    {
      q := q + 1;
    }
  }

  method TruncRws(s: seq<byte>, p: nat, end: nat) returns (q: nat)
    requires p <= end <= |s|
    ensures q == Kept(s, p, end)
  {
    q := end;
    while q > p && IsSpace(s[q - 1])
      invariant p <= q <= end && Kept(s, p, q) == Kept(s, p, end)
    {
      q := q - 1;
    }
  }

  /** `memchr` for the comment. */
  method FindComment(s: seq<byte>) returns (q: nat)
    ensures q == Comment(s, 0)
  {
    q := 0;
    while q < |s| && s[q] != 35
      invariant 0 <= q <= |s| && Comment(s, q) == Comment(s, 0)
    {
      q := q + 1;
    }
  }

  /** The string or its first `sz` characters are there to be read. */
  predicate HasUpTo(s: seq<byte>, sz: nat) {
    sz <= |s| || 0 in s
  }

  /** `strncasecmp`: zero exactly if both strings, up to that length, are equal but for case. */
  method CaseCompare(a: seq<byte>, b: seq<byte>, sz0: nat) returns (r: int)
    requires HasUpTo(a, sz0) && HasUpTo(b, sz0)
    ensures -1 <= r <= 1 && (r == 0 <==> Lowered(Printed(a, sz0 + 1)) == Lowered(Printed(b, sz0 + 1)))
    ensures r > 0 ==> exists k :: 0 <= k < sz0 && Ahead(b, a, k)
    ensures r < 0 ==> exists k :: 0 <= k < sz0 && Ahead(a, b, k)
  {
    hide Lowered, Printed, Upper;
    var c1: int, c2: int := 1, 1;
    var i, sz := 0, sz0;
    hide Ahead;
    ghost var same := Lowered(Printed(a, sz0 + 1)) == Lowered(Printed(b, sz0 + 1));
    assert a[0..] == a && b[0..] == b;
    while c1 != 0 && c2 != 0 && c1 == c2 && sz != 0
      invariant c1 == c2 != 0 ==> i <= |a| && i <= |b| && HasUpTo(a[i..], sz) && HasUpTo(b[i..], sz)
      invariant c1 == c2 != 0 ==>
        (same <==> Lowered(Printed(a[i..], sz + 1)) == Lowered(Printed(b[i..], sz + 1)))
      invariant 0 <= i == sz0 - sz && (c1 == c2 != 0 ==> SameTo(a, b, i))
      invariant c1 == c2 == 0 ==> same
      invariant c1 > c2 ==> i > 0 && Ahead(b, a, i - 1)
      invariant c1 < c2 ==> i > 0 && Ahead(a, b, i - 1)
      invariant c1 != c2 ==> !same
      decreases sz
    {
      CaseStep(a[i..], b[i..], sz - 1);
      assert a[i..][1..] == a[i + 1..] && b[i..][1..] == b[i + 1..];
      c1, c2 := Upper(a[i]), Upper(b[i]);
      SameMore(a, b, i);
      i, sz := i + 1, sz - 1;
    }
    if c1 == c2 != 0 {
      PrintedStep(a[i..], 0);
      PrintedStep(b[i..], 0);
    }
    r := if c1 == c2 then 0 else if c1 > c2 then 1 else -1;
  }

  /** But for case the strings are the same up to `k`. */
  predicate SameTo(a: seq<byte>, b: seq<byte>, k: nat) {
    k <= |a| && k <= |b| && forall j :: 0 <= j < k ==> Upper(a[j]) == Upper(b[j])
  }

  /** There `a` comes before `b`. */
  predicate Ahead(a: seq<byte>, b: seq<byte>, k: nat) {
    SameTo(a, b, k) && k < |a| && k < |b| && Upper(a[k]) < Upper(b[k])
  }

  lemma SameMore(a: seq<byte>, b: seq<byte>, k: nat)
    requires SameTo(a, b, k) && k < |a| && k < |b|
    ensures Upper(a[k]) == Upper(b[k]) ==> SameTo(a, b, k + 1)
    ensures Upper(a[k]) < Upper(b[k]) ==> Ahead(a, b, k)
    ensures Upper(a[k]) > Upper(b[k]) ==> Ahead(b, a, k)
  {
  }

  lemma CaseStep(a: seq<byte>, b: seq<byte>, n: nat)
    requires HasUpTo(a, n + 1) && HasUpTo(b, n + 1)
    ensures a != [] && b != [] && (Upper(a[0]) == 0 <==> a[0] == 0)
    ensures a[0] != 0 ==> HasUpTo(a[1..], n)
    ensures b[0] != 0 ==> HasUpTo(b[1..], n)
    ensures Lowered(Printed(a, n + 2)) == Lowered(Printed(b, n + 2)) <==>
      Upper(a[0]) == Upper(b[0]) && (a[0] == 0 || Lowered(Printed(a[1..], n + 1)) == Lowered(Printed(b[1..], n + 1)))
    ensures Upper(a[0]) == Upper(b[0]) ==> (a[0] == 0 <==> b[0] == 0)
  {
    hide Printed;
    PrintedStep(a, n + 1);
    PrintedStep(b, n + 1);
    CaseFolds(a[0], b[0]);
    LoweredCons(a[0], Printed(a[1..], n + 1));
    LoweredCons(b[0], Printed(b[1..], n + 1));
    SameCons(Lower(a[0]), Lowered(Printed(a[1..], n + 1)), Lower(b[0]), Lowered(Printed(b[1..], n + 1)));
    assert Lowered([]) == [];
  }

  lemma SameCons(x: byte, s: seq<byte>, y: byte, t: seq<byte>)
    ensures [x] + s == [y] + t <==> x == y && s == t
  {
    if [x] + s == [y] + t {
      assert ([x] + s)[0] == ([y] + t)[0] && ([x] + s)[1..] == s && ([y] + t)[1..] == t;
    }
  }

  lemma LoweredCons(c: byte, s: seq<byte>)
    ensures Lowered([c] + s) == [Lower(c)] + Lowered(s)
  {
  }

  /** The datum of a line if its key is equal but for case. */
  method MatchField(line: seq<byte>, key: seq<byte>) returns (data: Option<seq<byte>>)
    requires 0 !in key
    ensures data == match Plain(line)
      case None => None
      case Some(f) => if Lowered(f.key) == Lowered(key) then Some(f.data) else None
  {
    hide IsSpace, Skip, Kept, Comment, Lowered, Printed;
    var len := FindComment(line);
    len := TruncRws(line, 0, len);
    if len == 0 {
      return None;
    }
    var p := SkipWs(line, 0, len);
    var q := SkipNonws(line, p, len);
    var d := SkipWs(line, q, len);
    assert |Lowered(line[p..q])| == q - p && |Lowered(key)| == |key|;
    if q - p == |key| {
      PrintedWhole(key, |key| + 1);
      PrintedWhole(line[p..q], |key| + 1);
      var differ := CaseCompare(key, line[p..q], |key|);
      if differ == 0 {
        return Some(line[d..len]);
      }
    }
    return None;
  }

  lemma NoAnswer(key: seq<byte>)
    ensures Answer(Fields([], true), key) == None
  {
  }

  /** The answer of a text is that of its first line or of the rest. */
  lemma NextAnswer(text: seq<byte>, key: seq<byte>)
    ensures text != [] ==>
      var n := LineLength(text, true);
      var f, later := Plain(text[..n]), Answer(Fields(text[n..], true), key);
      Answer(Fields(text, true), key)
        == if f.Some? && Lowered(f.value.key) == Lowered(key) then Some(f.value.data) else later
  {
    hide Plain, LineLength, Lowered;
    if text != [] {
      var n := LineLength(text, true);
      var f, rest := Plain(text[..n]), Fields(text[n..], true);
      NextFields(text, true);
      if f.Some? {
        assert ([f.value] + rest)[1..] == rest;
      }
    }
  }

  /** `matchline`, without regard to case: the datum of the next line with the key. */
  method Matchline(ms: MemStream, key: seq<byte>) returns (data: Option<seq<byte>>)
    requires ms.pos <= |ms.region| && 0 !in key
    modifies ms
    ensures data == Answer(Fields(ms.region[old(ms.pos)..], true), key)
  {
    hide LineLength, Plain, Lowered, Fields, Answer;
    NoAnswer(key);
    while true
      invariant ms.pos <= |ms.region|
      invariant Answer(Fields(ms.region[ms.pos..], true), key) == Answer(Fields(ms.region[old(ms.pos)..], true), key)
      decreases |ms.region| - ms.pos
    {
      ghost var left := ms.region[ms.pos..];
      var next := Getln(ms);
      if next == None {
        assert left == [];
        return None;
      }
      var line := next.value;
      NextAnswer(left, key);
      assert left[|line|..] == ms.region[ms.pos..];
      data := MatchField(line, key);
      if data.Some? {
        return;
      }
    }
  }

  /** The fields of a text are those of its first line and the rest. */
  lemma NextFields(text: seq<byte>, plain: bool)
    ensures text == [] ==> Fields(text, plain) == []
    ensures text != [] ==>
      var n := LineLength(text, plain);
      Fields(text, plain) == match LineField(text[..n], plain)
        case None => Fields(text[n..], plain)
        case Some(f) => [f] + Fields(text[n..], plain)
  {
  }

  /** `convert_to_lower` on a copy. */
  method ToLower(key: seq<byte>) returns (r: seq<byte>)
    ensures r == Lowered(key)
  {
    var a := new byte[|key|](i requires 0 <= i < |key| => key[i]);
    var i := 0;
    while i < |key|
      invariant 0 <= i <= |key| && (forall k :: 0 <= k < i ==> a[k] == Lower(key[k])) && forall k ::
        i <= k < |key| ==> a[k] == key[k]
    {
      a[i] := Lower(a[i]);
      i := i + 1;
    }
    r := a[..];
  }

  /** `seq_lookup_plain`. */
  method LookupPlain(text: seq<byte>, key: seq<byte>, ignoreCase: bool) returns (data: Option<seq<byte>>)
    requires 0 !in key
    ensures data == Answer(Fields(text, true), key)
  {
    var k := key;
    if ignoreCase {
      k := ToLower(key);
      LoweredTwice(key);
      NoNul(key);
      AnswerFolds(Fields(text, true), key, k);
    }
    var ms := new MemStream.Bind(text);
    assert text[0..] == text;
    data := Matchline(ms, k);
  }

  lemma NoNul(key: seq<byte>)
    requires 0 !in key
    ensures 0 !in Lowered(key)
  {
    forall i | 0 <= i < |key|
      ensures Lowered(key)[i] != 0
    {
      assert key[i] in key;
    }
  }

  lemma {:induction false} AnswerFolds(fs: seq<Field>, a: seq<byte>, b: seq<byte>)
    requires Lowered(a) == Lowered(b)
    ensures Answer(fs, a) == Answer(fs, b)
  {
    if fs != [] {
      AnswerFolds(fs[1..], a, b);
    }
  }

  // ----- the compiler ------------------------------------------------------------------

  /** `convert_line`: an entry for a line that has one, cut to the sizes of the buffers. */
  method ConvertLine(df: Factory, line: seq<byte>)
    requires df.Valid() && df.Unreduced()
    modifies df
    ensures df.Valid() && df.Unreduced() && |df.entries| >= |old(df.entries)| && fresh(df.entries[|old(df.entries)|..])
    ensures df.entries[..|old(df.entries)|] == old(df.entries)
    ensures ItemsOf(df.entries) == old(ItemsOf(df.entries)) + match Compiled(line) case None => [] case Some(f) =>
      [ItemFor(Stored(f))]
  {
    hide Skip, Word, Kept, Comment, Printed, ItemsOf, Factory.Valid, Factory.Unreduced;
    var len := FindComment(line);
    var p := SkipWs(line, 0, len);
    if p == len {
      return;
    }
    var q := SkipNonws(line, p, len);
    if p == q {
      return;
    }
    var key := ToLower(Printed(line[p..q], LINE_MAX));
    p := SkipWs(line, q, len);
    len := TruncRws(line, p, len);
    var data := Printed(line[p..len], LINE_MAX);
    df.Add(key, data + [0]);
  }

  /** `out` is a database compiled from the text. */
  ghost predicate CompiledFrom(out: seq<byte>, text: seq<byte>, hashfunc: seq<byte> -> u32) {
    var items := ItemsFor(DbFields(text));
    if items == [] then out == Image(LookupMagic(), [])
    else exists t: Table :: t.items == items && t.StoredIn(out, LookupMagic()) && t.HashedBy(hashfunc)
  }

  /** The fields of the database compiled from a text. */
  function DbFields(text: seq<byte>): (fs: seq<Field>)
    ensures |fs| == |Fields(text, false)|
  {
    StoredFields(Fields(text, false))
  }

  lemma ItemsStep(text: seq<byte>)
    requires text != []
    ensures var n := LineLength(text, false);
      ItemsFor(DbFields(text))
        == (match Compiled(text[..n]) case None => [] case Some(f) => [ItemFor(Stored(f))])
          + ItemsFor(DbFields(text[n..]))
  {
    hide Compiled, LineLength;
    NextFields(text, false);
  }

  /** The lines are added one by one. */
  method ConvertLines(text: seq<byte>, hashfunc: seq<byte> -> u32) returns (df: Factory)
    ensures fresh(df) && df.Valid() && df.Unreduced() && fresh(df.entries) && df.hashfunc == hashfunc
    ensures ItemsOf(df.entries) == ItemsFor(DbFields(text))
  {
    hide Compiled, Fields, DbFields, ItemsFor, ItemsOf, LineLength, Factory.Valid, Factory.Unreduced;
    df := new Factory(hashfunc);
    NoItems();
    var pos := 0;
    assert text[0..] == text;
    while pos < |text|
      invariant 0 <= pos <= |text|
      invariant fresh(df) && df.Valid() && df.Unreduced() && fresh(df.entries) && df.hashfunc == hashfunc
      invariant ItemsOf(df.entries) + ItemsFor(DbFields(text[pos..])) == ItemsFor(DbFields(text))
    {
      var line := NextLine(text, pos);
      ghost var rest := text[pos..];
      ItemsStep(rest);
      assert rest[|line|..] == text[pos + |line|..];
      Regroup(ItemsOf(df.entries), match Compiled(line) case None => [] case Some(f) => [ItemFor(Stored(f))],
        ItemsFor(DbFields(text[pos + |line|..])));
      ghost var before := df.entries;
      ConvertLine(df, line);
      assert df.entries == before + df.entries[|before|..];
      pos := pos + |line|;
    }
    assert text[pos..] == [];
  }

  lemma NoItems()
    ensures ItemsOf([]) == [] && ItemsFor(DbFields([])) == []
  {
  }

  /** `fgetln`. */
  method NextLine(text: seq<byte>, pos: nat) returns (line: seq<byte>)
    requires pos < |text|
    ensures line == text[pos..][..LineLength(text[pos..], false)]
  {
    var h := text[pos..];
    var i := 0;
    while h[i] != 10 && i + 1 < |h|
      invariant 0 <= i < |h| && LineLength(h, false) == i + LineLength(h[i..], false)
      decreases |h| - i
    {
      assert h[i..][1..] == h[i + 1..];
      i := i + 1;
    }
    line := h[..i + 1];
  }

  /** `_citrus_lookup_factory_convert`. */
  method Convert(text: seq<byte>, hashfunc: seq<byte> -> u32) returns (out: seq<byte>)
    requires SizeFor(ItemsFor(DbFields(text))) < 0x1_0000_0000
    ensures CompiledFrom(out, text, hashfunc)
    ensures |out| >= 16 && out[..8] == [76, 79, 79, 75, 85, 80, 0, 0]
  {
    hide Fields, DbFields, ItemsFor, Image, Placed, RecsOf, ItemsOf, Wanted, Sum, KeySizes, DataSizes, CeilTo;
    var df := ConvertLines(text, hashfunc);
    var size := df.CalcSize();
    WantedOf(df);
    ghost var items := ItemsOf(df.entries);
    var ptr := new byte[size](_ => 0);
    ghost var slot, idx := df.Serialize(LookupMagic(), ptr);
    out := ptr[..];
    assert ptr[..size] == out;
    EntriesOf(df.entries);
    if df.numEntries == 0 {
      NothingStored(ItemsOf(df.entries), Wanted(df.entries), slot, idx);
      HeaderAt(LookupMagic(), []);
    } else {
      AgreeAfter(df, items);
      SerializedIsStored(df, out, LookupMagic(), slot, idx);
      ghost var t := Table(ItemsOf(df.entries), Wanted(df.entries), slot, idx);
      HeaderWords(t, out, LookupMagic());
      assert t.items == ItemsFor(DbFields(text)) && t.StoredIn(out, LookupMagic()) && t.HashedBy(hashfunc);
    }
  }

  lemma EntriesOf(entries: seq<Entry>)
    ensures |ItemsOf(entries)| == |entries|
  {
  }

  lemma NothingStored(items: seq<Item>, hs: seq<nat>, slot: seq<int>, idx: seq<int>)
    requires items == [] && |hs| == 0 && Placed(hs, slot, idx)
    ensures RecsOf(items, hs, slot, idx) == []
  {
  }

  lemma WantedOf(df: Factory)
    requires df.Unreduced()
    ensures |Wanted(df.entries)| == |df.entries| == |ItemsOf(df.entries)|
    ensures forall e :: 0 <= e < |df.entries| ==>
      Wanted(df.entries)[e] == df.hashfunc(ItemsOf(df.entries)[e].key) % |df.entries|
  {
  }

  /** What serializing leaves of the hashes is what the reader computes. */
  lemma AgreeAfter(df: Factory, items: seq<Item>)
    requires ItemsOf(df.entries) == items && |Wanted(df.entries)| == |df.entries| == |items|
    requires forall e :: 0 <= e < |df.entries| ==> Wanted(df.entries)[e] == df.hashfunc(items[e].key) % |df.entries|
    ensures df.HashesAgree()
  {
    forall e | 0 <= e < |df.entries|
      ensures df.entries[e].hashvalue % |df.entries| == df.hashfunc(df.entries[e].key) % |df.entries|
    {
      assert ItemsOf(df.entries)[e].key == df.entries[e].key;
    }
  }

  // ----- the database --------------------------------------------------------------------

  /** The first entry with a key in lower case is that of the first field with the key. */
  lemma {:induction false} FirstEntry(fs: seq<Field>, key: seq<byte>, from: nat)
    requires from <= |fs|
    ensures var m := Matches(ItemsFor(fs), Lowered(key), from);
      Answer(fs[from..], key) == if m == [] then None else Some(fs[m[0]].data)
    decreases |fs| - from
  {
    hide Lowered;
    if from < |fs| {
      FirstEntry(fs, key, from + 1);
      assert fs[from..][0] == fs[from] && fs[from..][1..] == fs[from + 1..];
    }
  }

  /** Keys that are not in lower case are not found without folding. */
  lemma {:induction false} NoEntryUnfolded(fs: seq<Field>, key: seq<byte>, from: nat)
    requires from <= |fs| && key != Lowered(key)
    ensures Matches(ItemsFor(fs), key, from) == []
    decreases |fs| - from
  {
    if from < |fs| {
      NoEntryUnfolded(fs, key, from + 1);
      LoweredTwice(fs[from].key);
    }
  }

  /** The answer of the database. */
  function DbAnswer(fs: seq<Field>, key: seq<byte>, ignoreCase: bool): Option<seq<byte>> {
    if ignoreCase || key == Lowered(key) then Answer(fs, key) else None
  }

  /** What a fresh lookup in the database of the fields comes to. */
  lemma DbFinds(t: Table, hashfunc: seq<byte> -> u32, fs: seq<Field>, key: seq<byte>, k: seq<byte>, ignoreCase: bool)
    requires t.Valid() && t.HashedBy(hashfunc) && t.items == ItemsFor(fs) && k == if ignoreCase then Lowered(key)
      else key
    ensures t.Outcome(Step(t, Fresh, hashfunc(k) % |t.items|, k).0)
      == match DbAnswer(fs, key, ignoreCase) case None => NoEntry case Some(d) => LookupResult.Found(d + [0])
  {
    hide Lowered, Step, Placed, Answer, DataFrom;
    LookupGivesFirst(t, hashfunc, k);
    forall e: nat | e < |t.items|
      ensures DataFrom(t, e)
    {
      NothingRefused(t, e);
    }
    if ignoreCase || key == Lowered(key) {
      FirstEntry(fs, key, 0);
      assert fs[0..] == fs;
    } else {
      NoEntryUnfolded(fs, key, 0);
    }
  }

  /** `seq_lookup_db`; the datum is delivered with its NUL. */
  method LookupDb(db: Db, key: seq<byte>, ignoreCase: bool, ghost text: seq<byte>) returns (data: Option<seq<byte>>)
    requires CompiledFrom(db.region, text, db.hashfunc) && DbFields(text) != []
    ensures data == match DbAnswer(DbFields(text), key, ignoreCase) case None => None case Some(d) => Some(d + [0])
  {
    hide DbFields, Answer, Lowered, ItemsFor, Step, DbAnswer;
    ghost var fs := DbFields(text);
    var k := key;
    if ignoreCase {
      k := ToLower(key);
    }
    ghost var t: Table :| t.items == ItemsFor(fs) && t.StoredIn(db.region, LookupMagic()) && t.HashedBy(db.hashfunc);
    DbFinds(t, db.hashfunc, fs, key, k, ignoreCase);
    var found := db.Lookup(k, null, t, LookupMagic(), Fresh);
    data := match found case Found(d) => Some(d) case _ => None;
  }

  /** What is printed for an answer. */
  function Shown(a: Option<seq<byte>>, size: nat): Option<seq<byte>>
    requires size > 0
  {
    match a case None => None case Some(d) => Some(Printed(d, size))
  }

  /** `_citrus_lookup_simple` for a name of which there may be a database and a text; the text
      is read only where there is no database. */
  method LookupSimple(dbFile: Option<seq<byte>>, textFile: Option<seq<byte>>, key: seq<byte>, size: nat,
                      ignoreCase: bool,
                      hashfunc: seq<byte> -> u32, ghost source: seq<byte>)
    returns (line: Option<seq<byte>>)
    requires size > 0 && 0 !in key
    requires dbFile.Some? ==> CompiledFrom(dbFile.value, source, hashfunc)
    ensures dbFile.Some? ==> line == Shown(DbAnswer(DbFields(source), key, ignoreCase), size)
    ensures dbFile.None? && textFile.Some? ==> line == Shown(Answer(Fields(textFile.value, true), key), size)
    ensures dbFile.None? && textFile.None? ==> line == None
  {
    hide Fields, DbFields, Answer, Printed, Lowered, CompiledFrom, Acceptable, DbAnswer;
    var data: Option<seq<byte>>;
    if dbFile.Some? {
      var db := Db.Open(dbFile.value, LookupMagic(), hashfunc);
      Opens(dbFile.value, source, hashfunc);
      AnswerClean(source, key, ignoreCase, size);
      if db == null {
        return None;
      }
      data := LookupDb(db, key, ignoreCase, source);
    } else {
      if textFile.None? {
        return None;
      }
      data := LookupPlain(textFile.value, key, ignoreCase);
    }
    if data == None {
      return None;
    }
    line := Some(Printed(data.value, size));
  }

  /** A compiled database opens exactly when it has an entry. */
  lemma Opens(out: seq<byte>, text: seq<byte>, hashfunc: seq<byte> -> u32)
    requires CompiledFrom(out, text, hashfunc)
    ensures Acceptable(out, LookupMagic()) <==> DbFields(text) != []
  {
    hide DbFields, Image;
    var items := ItemsFor(DbFields(text));
    if items == [] {
      EmptyDoesNotOpen(out, LookupMagic());
    } else {
      var t: Table :| t.items == items && t.StoredIn(out, LookupMagic()) && t.HashedBy(hashfunc);
      WrittenOpens(t, out, LookupMagic());
    }
  }

  /** Stored data have no NUL, so they are printed the same with one behind. */
  lemma AnswerClean(text: seq<byte>, key: seq<byte>, ignoreCase: bool, size: nat)
    requires size > 0
    ensures DbAnswer([], key, ignoreCase) == None
    ensures var a := DbAnswer(DbFields(text), key, ignoreCase); a.Some? ==>
      Printed(a.value + [0], size) == Printed(a.value, size)
  {
    hide Fields, Printed;
    var fs := Fields(text, false);
    AnswerIn(DbFields(text), key);
    var a := Answer(DbFields(text), key);
    if a.Some? {
      var i :| 0 <= i < |fs| && a.value == DbFields(text)[i].data;
      PrintedWithNul(fs[i].data, size);
    }
  }

  lemma PrintedWithNul(d: seq<byte>, size: nat)
    requires size > 0
    ensures Printed(Printed(d, LINE_MAX) + [0], size) == Printed(Printed(d, LINE_MAX), size)
  {
    CStringWhole(Printed(d, LINE_MAX));
  }

  lemma {:induction false} AnswerIn(fs: seq<Field>, key: seq<byte>)
    ensures Answer(fs, key).Some? ==> exists i :: 0 <= i < |fs| && Answer(fs, key).value == fs[i].data
  {
    if fs != [] {
      AnswerIn(fs[1..], key);
      assert forall i :: 0 <= i < |fs| - 1 ==> fs[1..][i] == fs[i + 1];
    }
  }

  // ----- the database against the text ---------------------------------------------------

  /** Ignoring case, the database gives the string that the text gives, or none where it
      gives none. */
  predicate Agree(text: seq<byte>, key: seq<byte>, size: nat)
    requires size > 0
  {
    Shown(DbAnswer(DbFields(text), key, true), size) == Shown(Answer(Fields(text, true), key), size)
  }

  /** No field with the key comes before. */
  predicate FirstWithKey(fs: seq<Field>, i: nat)
    requires i < |fs|
  {
    forall j :: 0 <= j < i ==> Lowered(fs[j].key) != Lowered(fs[i].key)
  }

  /** Every field that can be asked for fits the buffers of the compiler. */
  predicate Uncut(fs: seq<Field>) {
    forall i :: 0 <= i < |fs| && FirstWithKey(fs, i) ==> |fs[i].key| < LINE_MAX && |fs[i].data| < LINE_MAX
  }

  predicate NoNuls(fs: seq<Field>) {
    forall i :: 0 <= i < |fs| ==> 0 !in fs[i].key && 0 !in fs[i].data
  }

  lemma {:induction false} FieldsClean(text: seq<byte>, plain: bool)
    requires 0 !in text
    ensures NoNuls(Fields(text, plain))
    decreases |text|
  {
    hide LineField, LineLength;
    if text != [] {
      var n := LineLength(text, plain);
      FieldsClean(text[n..], plain);
      NextFields(text, plain);
      LineClean(text[..n], plain);
    }
  }

  lemma LineClean(line: seq<byte>, plain: bool)
    requires 0 !in line
    ensures var f := LineField(line, plain); f.Some? ==> 0 !in f.value.key && 0 !in f.value.data
  {
    hide Skip, Word, Kept, Comment;
  }

  /** A key too long to be stored whole is never found. */
  lemma {:induction false} LongKeyLost(fs: seq<Field>, key: seq<byte>)
    requires |key| >= LINE_MAX
    ensures Answer(StoredFields(fs), key) == None
  {
    hide CString;
    if fs != [] {
      LongKeyLost(fs[1..], key);
      assert StoredFields(fs)[1..] == StoredFields(fs[1..]);
      assert |Lowered(Stored(fs[0]).key)| < |Lowered(key)|;
    }
  }

  /** With all keys whole, or asked for a key that no cut key can be equal to, the database
      gives the datum of the text, cut to the size of the buffer. */
  lemma {:induction false} CutAnswer(fs: seq<Field>, key: seq<byte>)
    requires NoNuls(fs)
    requires |key| < LINE_MAX - 1 || forall i :: 0 <= i < |fs| ==> |fs[i].key| < LINE_MAX
    ensures Answer(StoredFields(fs), key) == match Answer(fs, key) case None => None case Some(d) =>
      Some(Printed(d, LINE_MAX))
  {
    hide Printed, Lowered;
    if fs != [] {
      CutAnswer(fs[1..], key);
      assert StoredFields(fs)[1..] == StoredFields(fs[1..]);
      assert 0 !in fs[0].key;
      PrintedWhole(fs[0].key, LINE_MAX);
      assert |Lowered(fs[0].key)| == |fs[0].key| && |Lowered(key)| == |key|;
    }
  }

  /** The first field with a key is the answer for it. */
  lemma {:induction false} AnswerFirst(fs: seq<Field>, i: nat)
    requires i < |fs| && FirstWithKey(fs, i)
    ensures Answer(fs, fs[i].key) == Some(fs[i].data)
  {
    hide Lowered;
    if i > 0 {
      assert forall j :: 0 <= j < |fs| - 1 ==> fs[1..][j] == fs[j + 1];
      AnswerFirst(fs[1..], i - 1);
    }
  }

  /** Every field has the key of a first one. */
  lemma {:induction false} SomeFirst(fs: seq<Field>, i: nat) returns (j: nat)
    requires i < |fs|
    ensures j <= i && FirstWithKey(fs, j) && Lowered(fs[j].key) == Lowered(fs[i].key)
    decreases i
  {
    hide Lowered;
    j := i;
    if !FirstWithKey(fs, i) {
      var k :| 0 <= k < i && Lowered(fs[k].key) == Lowered(fs[i].key);
      j := SomeFirst(fs, k);
    }
  }

  lemma {:induction false} AnswerIsFirst(fs: seq<Field>, key: seq<byte>) returns (i: nat)
    requires Answer(fs, key).Some?
    ensures i < |fs| && FirstWithKey(fs, i) && Lowered(fs[i].key) == Lowered(key) && Answer(fs, key) == Some(fs[i].data)
  {
    hide Lowered;
    if Lowered(fs[0].key) == Lowered(key) {
      i := 0;
    } else {
      var k := AnswerIsFirst(fs[1..], key);
      assert forall j :: 0 <= j < |fs| - 1 ==> fs[1..][j] == fs[j + 1];
      i := k + 1;
    }
  }

  lemma UncutKeys(fs: seq<Field>)
    requires Uncut(fs)
    ensures forall i :: 0 <= i < |fs| ==> |fs[i].key| < LINE_MAX
  {
    forall i | 0 <= i < |fs|
      ensures |fs[i].key| < LINE_MAX
    {
      var j := SomeFirst(fs, i);
      assert |Lowered(fs[j].key)| == |Lowered(fs[i].key)|;
    }
  }

  /** The first field that is named by the key, but for case, or the number of fields. */
  function FirstNamed(fs: seq<Field>, key: seq<byte>): (i: nat)
    ensures i <= |fs| && (i < |fs| ==> Lowered(fs[i].key) == Lowered(key))
    ensures forall j :: 0 <= j < i ==> Lowered(fs[j].key) != Lowered(key)
  {
    if fs == [] || Lowered(fs[0].key) == Lowered(key) then 0 else 1 + FirstNamed(fs[1..], key)
  }

  lemma {:induction false} AnswerNamed(fs: seq<Field>, key: seq<byte>)
    ensures var i := FirstNamed(fs, key); Answer(fs, key) == if i < |fs| then Some(fs[i].data) else None
  {
    hide Lowered;
    if fs != [] {
      AnswerNamed(fs[1..], key);
    }
  }

  /** For one key: what counts is the first field whose key, as it is stored, is the one asked
      for. If there is none, the answers agree exactly if the text has none; if its key is
      whole, exactly if its datum fits the compiler's buffer or the caller's is no larger; if
      its key has been cut, exactly if the text has an answer that is printed the same. */
  lemma AgreeForKeyIff(text: seq<byte>, key: seq<byte>, size: nat)
    requires size > 0 && Clean(text) && 0 !in text
    ensures var fs := Fields(text, true);
      var a, i := Answer(fs, key), FirstNamed(StoredFields(fs), key);
      Agree(text, key, size) <==>
        if i == |fs| then a == None
        else if |fs[i].key| < LINE_MAX then |fs[i].data| < LINE_MAX || size <= LINE_MAX
        else a.Some? && Printed(a.value, size) == Printed(Printed(fs[i].data, LINE_MAX), size)
    ensures var a := Answer(Fields(text, true), key);
      |key| != LINE_MAX - 1 ==>
        (Agree(text, key, size) <==>
          a == None || (|key| < LINE_MAX && (|a.value| < LINE_MAX || size <= LINE_MAX)))
  {
    hide Printed, Lowered;
    SameFields(text);
    FieldsClean(text, true);
    var fs := Fields(text, true);
    var i := FirstNamed(StoredFields(fs), key);
    AnswerNamed(StoredFields(fs), key);
    if i < |fs| && |fs[i].key| < LINE_MAX {
      WholeKeyAnswers(fs, key);
      PrintedTwice(fs[i].data, LINE_MAX, size);
    }
    AgreeForOtherKeys(text, key, size);
  }

  /** A stored key that is whole names the same field in the text. */
  lemma WholeKeyAnswers(fs: seq<Field>, key: seq<byte>)
    requires NoNuls(fs)
    requires var i := FirstNamed(StoredFields(fs), key); i < |fs| && |fs[i].key| < LINE_MAX
    ensures Answer(fs, key) == Some(fs[FirstNamed(StoredFields(fs), key)].data)
  {
    hide Printed, Lowered;
    var i, k := FirstNamed(StoredFields(fs), key), FirstNamed(fs, key);
    AnswerNamed(fs, key);
    PrintedWhole(fs[i].key, LINE_MAX);
    assert |Lowered(fs[i].key)| == |fs[i].key| && |Lowered(key)| == |key|;
    if k < |fs| {
      assert |Lowered(fs[k].key)| == |fs[k].key|;
      PrintedWhole(fs[k].key, LINE_MAX);
      assert StoredFields(fs)[k].key == fs[k].key;
    }
  }

  lemma AgreeForOtherKeys(text: seq<byte>, key: seq<byte>, size: nat)
    requires size > 0 && Clean(text) && 0 !in text
    ensures var a := Answer(Fields(text, true), key);
      |key| != LINE_MAX - 1 ==>
        (Agree(text, key, size) <==>
          a == None || (|key| < LINE_MAX && (|a.value| < LINE_MAX || size <= LINE_MAX)))
  {
    hide Printed, Lowered;
    SameFields(text);
    FieldsClean(text, true);
    var fs := Fields(text, true);
    if |key| >= LINE_MAX {
      LongKeyLost(fs, key);
    } else if |key| < LINE_MAX - 1 {
      CutAnswer(fs, key);
      if Answer(fs, key).Some? {
        var i := AnswerIsFirst(fs, key);
        PrintedTwice(fs[i].data, LINE_MAX, size);
      }
    }
  }

  /** The database compiled from a text gives every caller the strings that the text itself
      gives exactly if every first field of its key fits the compiler's buffers: for every
      text without NULs whose carriage returns are all in front of newlines, and every hash
      function. */
  lemma DatabaseAnswersAsText(text: seq<byte>)
    requires Clean(text) && 0 !in text
    ensures (forall key, size: nat :: size > 0 && 0 !in key ==> Agree(text, key, size)) <==> Uncut(Fields(text, true))
  {
    hide Agree, Uncut;
    var fs := Fields(text, true);
    if Uncut(fs) {
      forall key, size: nat | size > 0 && 0 !in key
        ensures Agree(text, key, size)
      {
        UncutAgrees(text, key, size);
      }
    } else {
      var key, size := CutDisagrees(text);
      assert !Agree(text, key, size);
    }
  }

  lemma UncutAgrees(text: seq<byte>, key: seq<byte>, size: nat)
    requires size > 0 && Clean(text) && 0 !in text && Uncut(Fields(text, true))
    ensures Agree(text, key, size)
  {
    hide Printed, Lowered;
    SameFields(text);
    FieldsClean(text, true);
    var fs := Fields(text, true);
    UncutKeys(fs);
    CutAnswer(fs, key);
    if Answer(fs, key).Some? {
      var i := AnswerIsFirst(fs, key);
      PrintedWhole(fs[i].data, LINE_MAX);
    }
  }

  /** Where a first field does not fit, asking for its key in a large enough buffer shows. */
  lemma CutDisagrees(text: seq<byte>) returns (key: seq<byte>, size: nat)
    requires Clean(text) && 0 !in text && !Uncut(Fields(text, true))
    ensures size > 0 && 0 !in key && !Agree(text, key, size)
  {
    hide Printed, Lowered;
    SameFields(text);
    FieldsClean(text, true);
    var fs := Fields(text, true);
    var i :| 0 <= i < |fs| && FirstWithKey(fs, i) && !(|fs[i].key| < LINE_MAX && |fs[i].data| < LINE_MAX);
    AnswerFirst(fs, i);
    key, size := fs[i].key, |fs[i].data| + 1;
    if |key| >= LINE_MAX {
      LongKeyLost(fs, key);
    } else if exists j :: 0 <= j < |fs| && FirstWithKey(fs, j) && |fs[j].key| >= LINE_MAX {
      var j :| 0 <= j < |fs| && FirstWithKey(fs, j) && |fs[j].key| >= LINE_MAX;
      AnswerFirst(fs, j);
      key, size := fs[j].key, |fs[j].data| + 1;
      LongKeyLost(fs, key);
    } else {
      ShortKeys(fs);
      CutAnswer(fs, key);
      PrintedTwice(fs[i].data, LINE_MAX, size);
    }
  }

  lemma ShortKeys(fs: seq<Field>)
    requires !exists j :: 0 <= j < |fs| && FirstWithKey(fs, j) && |fs[j].key| >= LINE_MAX
    ensures forall i :: 0 <= i < |fs| ==> |fs[i].key| < LINE_MAX
  {
    forall i | 0 <= i < |fs|
      ensures |fs[i].key| < LINE_MAX
    {
      var j := SomeFirst(fs, i);
      assert |Lowered(fs[j].key)| == |Lowered(fs[i].key)|;
    }
  }

  /** One line with a datum of 512 bytes. */
  lemma CutLine()
    ensures var text: seq<byte> := [107, 32] + seq(512, _ => 120);
      Clean(text) && 0 !in text && !Agree(text, [107], 513)
  {
    var data: seq<byte> := seq(512, _ => 120);
    var text: seq<byte> := [107, 32] + data;
    SimpleLine(107, data);
    AgreeForKeyIff(text, [107], 513);
  }

  /** One byte less, and it is not cut. */
  lemma UncutLine(size: nat)
    requires size > 0
    ensures Agree([107, 32] + seq(511, _ => 120), [107], size)
  {
    var data: seq<byte> := seq(511, _ => 120);
    var text: seq<byte> := [107, 32] + data;
    SimpleLine(107, data);
    assert 0 !in text && Clean(text);
    AgreeForKeyIff(text, [107], size);
  }

  /** A table written one entry to a line answers with the first entry of the key. */
  lemma WrittenTableAnswers(fs: seq<Field>, sep: byte, key: seq<byte>)
    requires (forall f :: f in fs ==> Writable(f)) && sep in {9, 11, 12, 32}
    ensures var i, a := FirstNamed(fs, key), Answer(Fields(Rows(fs, sep), true), key);
      a == if i < |fs| then Some(fs[i].data) else None
  {
    hide Writable, Rows, Fields;
    TableReadsBack(fs, sep, true);
    AnswerNamed(fs, key);
  }

  /** A line of a one-letter key and a datum without spaces. */
  lemma SimpleLine(k: byte, data: seq<byte>)
    requires !EndsWord(k) && k != 35 && data != [] && forall i :: 0 <= i < |data| ==> !IsSpace(data[i]) && data[i] != 35
    ensures forall plain :: Fields([k, 32] + data, plain) == [Field([k], data)]
    ensures Answer([Field([k], data)], [k]) == Some(data)
  {
    hide LineLength, Compiled, Plain, IsSpace, IsEol, Lowered;
    var s: seq<byte> := [k, 32] + data;
    assert s[0] == k && s[1] == 32 && forall i :: 2 <= i < |s| ==> s[i] == data[i - 2];
    SimpleFields(s, k, data);
    forall plain
      ensures Fields(s, plain) == [Field([k], data)]
    {
      WholeLine(s, plain);
      NextFields(s, plain);
      assert s[..|s|] == s && s[|s|..] == [];
    }
  }

  lemma SimpleFields(s: seq<byte>, k: byte, data: seq<byte>)
    requires |s| == 2 + |data| && s[0] == k && s[1] == 32 && (forall i :: 2 <= i < |s| ==> s[i] == data[i - 2])
    requires !EndsWord(k) && k != 35 && data != [] && forall i :: 0 <= i < |data| ==> !IsSpace(data[i]) && data[i] != 35
    ensures Plain(s) == Compiled(s) == Some(Field([k], data)) && forall i :: 0 <= i < |s| ==> !IsEol(s[i])
  {
    hide Plain, Compiled;
    assert s == [] + [k] + [32] + data + [] + [];
    LineReadsBack([], [k], [32], data, [], []);
  }

  lemma {:induction false} WholeLine(s: seq<byte>, plain: bool)
    requires s != [] && forall i :: 0 <= i < |s| ==> !IsEol(s[i])
    ensures LineLength(s, plain) == |s|
  {
    if |s| > 1 {
      WholeLine(s[1..], plain);
    }
  }

  /** Without ignoring case, where the fields fit the buffers, database and text agree exactly
      on keys in lower case and on keys that neither has; text is always searched without
      regard to case. */
  lemma CaseMatters(text: seq<byte>, key: seq<byte>)
    requires Clean(text) && 0 !in text && Uncut(Fields(text, true))
    ensures DbAnswer(DbFields(text), key, false) == Answer(Fields(text, true), key)
      <==> key == Lowered(key) || Answer(Fields(text, true), key) == None
  {
    hide Lowered, Printed;
    SameFields(text);
    FieldsClean(text, true);
    var fs := Fields(text, true);
    UncutKeys(fs);
    CutAnswer(fs, key);
    if Answer(fs, key).Some? {
      var i := AnswerIsFirst(fs, key);
      PrintedWhole(fs[i].data, LINE_MAX);
    }
  }

  /** Without ignoring case, the database gives the string that the text gives. */
  predicate AgreeUnfolded(text: seq<byte>, key: seq<byte>, size: nat)
    requires size > 0
  {
    Shown(DbAnswer(DbFields(text), key, false), size) == Shown(Answer(Fields(text, true), key), size)
  }

  predicate Letterless(key: seq<byte>) {
    forall i :: 0 <= i < |key| ==> Lower(key[i]) == Upper(key[i])
  }

  ghost predicate NoLetters(fs: seq<Field>) {
    forall i :: 0 <= i < |fs| ==> Letterless(fs[i].key)
  }

  function Uppered(s: seq<byte>): (r: seq<byte>)
    ensures |r| == |s|
  {
    seq(|s|, i requires 0 <= i < |s| => Upper(s[i]))
  }

  lemma UpperedKey(key: seq<byte>)
    requires 0 !in key && !Letterless(key)
    ensures Lowered(Uppered(key)) == Lowered(key) && Uppered(key) != Lowered(Uppered(key)) && 0 !in Uppered(key)
  {
    var i :| 0 <= i < |key| && Lower(key[i]) != Upper(key[i]);
    assert Lowered(key)[i] != Uppered(key)[i];
    assert forall k :: 0 <= k < |key| ==> key[k] in key && Uppered(key)[k] != 0;
  }

  lemma LetterlessKey(a: seq<byte>, b: seq<byte>)
    requires Letterless(a) && Lowered(a) == Lowered(b)
    ensures b == Lowered(b)
  {
    forall i | 0 <= i < |b|
      ensures b[i] == Lowered(b)[i]
    {
      assert |Lowered(a)| == |Lowered(b)| && Lower(a[i]) == Lowered(a)[i] == Lowered(b)[i] == Lower(b[i]);
      assert Lower(a[i]) == Upper(a[i]);
    }
  }

  /** Without ignoring case, the database gives every caller the strings of the text exactly if
      every first field of its key fits the compiler's buffers and no key has a letter. */
  lemma DatabaseUnfoldedAnswersAsText(text: seq<byte>)
    requires Clean(text) && 0 !in text
    ensures (forall key, size: nat :: size > 0 && 0 !in key ==> AgreeUnfolded(text, key, size))
      <==> Uncut(Fields(text, true)) && NoLetters(Fields(text, true))
  {
    hide Agree, AgreeUnfolded, Uncut, NoLetters;
    var fs := Fields(text, true);
    if !Uncut(fs) {
      var key, size := CutDisagrees(text);
      FoldedKey(text, key, size);
      NoNul(key);
      assert !AgreeUnfolded(text, Lowered(key), size);
    } else if !NoLetters(fs) {
      var key := LetterDisagrees(text);
      assert !AgreeUnfolded(text, key, 1);
    } else {
      forall key, size: nat | size > 0 && 0 !in key
        ensures AgreeUnfolded(text, key, size)
      {
        LetterlessAgrees(text, key, size);
      }
    }
  }

  lemma FoldedKey(text: seq<byte>, key: seq<byte>, size: nat)
    requires size > 0
    ensures AgreeUnfolded(text, Lowered(key), size) == Agree(text, key, size)
  {
    LoweredTwice(key);
    AnswerFolds(DbFields(text), key, Lowered(key));
    AnswerFolds(Fields(text, true), key, Lowered(key));
  }

  lemma LetterDisagrees(text: seq<byte>) returns (key: seq<byte>)
    requires 0 !in text && !NoLetters(Fields(text, true))
    ensures 0 !in key && !AgreeUnfolded(text, key, 1)
  {
    hide Lowered, Uppered, Letterless;
    var fs := Fields(text, true);
    FieldsClean(text, true);
    var i :| 0 <= i < |fs| && !Letterless(fs[i].key);
    UpperedKey(fs[i].key);
    key := Uppered(fs[i].key);
    var j := SomeFirst(fs, i);
    AnswerFirst(fs, j);
    AnswerFolds(fs, fs[j].key, key);
  }

  lemma LetterlessAgrees(text: seq<byte>, key: seq<byte>, size: nat)
    requires size > 0 && Clean(text) && 0 !in text && Uncut(Fields(text, true)) && NoLetters(Fields(text, true))
    ensures AgreeUnfolded(text, key, size)
  {
    hide Lowered, Letterless, Uncut;
    UncutAgrees(text, key, size);
    if Answer(Fields(text, true), key).Some? {
      var i := AnswerIsFirst(Fields(text, true), key);
      LetterlessKey(Fields(text, true)[i].key, key);
    }
  }

  /** The text `A b` has the key `A`; its database has it only without regard to case. */
  lemma CapitalLost()
    ensures var text: seq<byte> := [65, 32, 98];
      Clean(text) && Answer(Fields(text, true), [65]) == Some([98]) && DbAnswer(DbFields(text), [65], false) == None
  {
    var text: seq<byte> := [65, 32, 98];
    assert text == [65, 32] + [98];
    SimpleLine(65, [98]);
    assert Lowered([65])[0] == 97;
  }
}
