/** The database reader: a cursor over the mapped bytes, opening, lookup with an
    optional locator, and access by slot number. */
module CitrusMemStream {
  import opened Basics

  class MemStream {
    const region: seq<byte>
    var pos: nat

    constructor Bind(region: seq<byte>)
      ensures this.region == region && pos == 0
    {
      this.region, pos := region, 0;
    }

    method Remainder() returns (sz: nat)
      ensures sz == if pos > |region| then 0 else |region| - pos
    {
      sz := if pos > |region| then 0 else |region| - pos;
    }

    /** Seeking to the very end is refused, even for an empty read. */
    method SeekSet(p: nat) returns (ok: bool)
      modifies this
      ensures ok <==> p < |region|
      ensures pos == if ok then p else old(pos)
    {
      ok := p < |region|;
      if ok {
        pos := p;
      }
    }

    method GetRegion(sz: nat) returns (r: Option<seq<byte>>)
      modifies this
      ensures if old(pos) + sz <= |region|
        then r == Some(region[old(pos)..old(pos) + sz]) && pos == old(pos) + sz
        else r == None && pos == old(pos)
    {
      if pos + sz > |region| {
        return None;
      }
      r := Some(region[pos..pos + sz]);
      pos := pos + sz;
    }
  }
}

/** What the reader is supposed to answer, in terms of the list of entries. */
module CitrusDbSpec {
  import opened Basics
  import opened CitrusBytes
  import opened CitrusDbFormat
  import opened CitrusDbPlacement

  datatype LookupResult = Found(data: seq<byte>) | NoEntry | BadFormat

  /** A database: its entries in insertion order and where they were placed. */
  datatype Table = Table(items: seq<Item>, hs: seq<nat>, slot: seq<int>, idx: seq<int>) {
    ghost predicate Valid() {
      && 0 < |items| == |hs| && Placed(hs, slot, idx)
    }

    ghost function Recs(): (recs: seq<Rec>)
      requires Valid()
      ensures |recs| == |items| && WellFormed(recs)
    {
      RecsOf(items, hs, slot, idx)
    }

    /** `region` is this table as the writer leaves it, small enough for its
        32-bit offsets. */
    ghost predicate StoredIn(region: seq<byte>, magic: seq<byte>) {
      && Valid() && |magic| == 8 && |region| < 0x1_0000_0000
      && region == Image(magic, Recs())
    }

    ghost predicate HashedBy(hashfunc: seq<byte> -> u32) {
      && 0 < |items| == |hs|
      && forall e :: 0 <= e < |items| ==> hs[e] == hashfunc(items[e].key) % |items|
    }

    /** The entry can be delivered: its datum does not start at the very end of
        the file, where the stream refuses to seek. */
    ghost predicate Readable(e: nat)
      requires Valid() && e < |items|
    {
      DataOff(Recs(), idx[e]) < ImageSize(Recs())
    }

    ghost function Outcome(e: int): LookupResult
      requires Valid() && -1 <= e < |items|
    {
      if e == -1 then NoEntry
      else if Readable(e) then Found(items[e].data)
      else BadFormat
    }
  }

  /** Where a locator stands: untouched, before entry `e` of the chain of hash
      `h`, or past the end. */
  datatype Cursor = Fresh | At(h: nat, e: nat) | Done(h: nat)

  /** Follow the chain from `e`, looking for `key` under hash `h`: the entry found
      or -1, and the successor of the last entry inspected or -1. */
  function Walk(t: Table, h: nat, e: nat, key: seq<byte>): (r: (int, int))
    requires |t.items| == |t.hs| && e < |t.hs|
    ensures r.0 == -1 || e <= r.0 < |t.hs|
    ensures r.1 == -1 || e < r.1 < |t.hs|
    decreases |t.hs| - e
  {
    var n := Succ(t.hs, e);
    if t.hs[e] != h then (-1, n)
    else if t.items[e].key == key then (e, n)
    else if n == -1 then (-1, -1)
    else Walk(t, h, n, key)
  }

  predicate CursorIn(t: Table, c: Cursor) {
    c.At? ==> c.e < |t.hs|
  }

  function Moved(h: nat, n: int): Cursor
    requires n >= -1
  {
    if n == -1 then Done(h) else At(h, n)
  }

  /** One lookup of a key whose reduced hash is `h0`. */
  function Step(t: Table, c: Cursor, h0: nat, key: seq<byte>): (r: (int, Cursor))
    requires |t.items| == |t.hs| == |t.slot| && h0 < |t.hs| && CursorIn(t, c)
    requires 0 <= t.slot[h0] < |t.hs|
    ensures -1 <= r.0 < |t.hs| && CursorIn(t, r.1)
  {
    match c
    case Fresh => var w := Walk(t, h0, t.slot[h0], key); (w.0, Moved(h0, w.1))
    case At(h, e) => var w := Walk(t, h, e, key); (w.0, Moved(h, w.1))
    case Done(h) => (-1, c)
  }

  /** The entries with key `key` from `from` on, in insertion order. */
  function Matches(items: seq<Item>, key: seq<byte>, from: nat): (m: seq<nat>)
    requires from <= |items|
    ensures forall i :: 0 <= i < |m| ==> from <= m[i] < |items| && items[m[i]].key == key
    ensures forall i, j :: 0 <= i < j < |m| ==> m[i] < m[j]
    ensures forall e :: from <= e < |items| && items[e].key == key ==> e in m
    decreases |items| - from
  {
    if from == |items| then []
    else if items[from].key == key then [from] + Matches(items, key, from + 1)
    else Matches(items, key, from + 1)
  }

  /** What a cursor used for `key` has still to deliver. */
  function Remaining(t: Table, c: Cursor, key: seq<byte>): seq<nat>
    requires CursorIn(t, c) && |t.items| == |t.hs|
  {
    match c
    case Fresh => Matches(t.items, key, 0)
    case At(_, e) => Matches(t.items, key, e)
    case Done(_) => []
  }

  /** The cursor has only been used with `key`. */
  predicate UsedFor(t: Table, c: Cursor, h0: nat, key: seq<byte>)
    requires CursorIn(t, c) && |t.items| == |t.hs|
  {
    match c
    case Fresh => true
    case At(h, e) => h == h0 && (t.hs[e] == h0 || Matches(t.items, key, e) == [])
    case Done(h) => true
  }

  lemma {:induction false} MatchesSkip(items: seq<Item>, key: seq<byte>, a: nat, b: nat)
    requires a <= b <= |items|
    requires forall j :: a <= j < b ==> items[j].key != key
    ensures Matches(items, key, a) == Matches(items, key, b)
    decreases b - a
  {
    if a < b {
      MatchesSkip(items, key, a + 1, b);
    }
  }

  lemma NoMatchAtEnd(items: seq<Item>, key: seq<byte>)
    ensures Matches(items, key, |items|) == []
  {
  }

  /** Matching entries of a chain all lie on the chain. */
  lemma MatchesAfter(t: Table, hashfunc: seq<byte> -> u32, key: seq<byte>, e: nat)
    requires t.HashedBy(hashfunc) && e < |t.items|
    requires t.hs[e] == hashfunc(key) % |t.items|
    ensures Matches(t.items, key, e + 1)
      == if Succ(t.hs, e) == -1 then [] else Matches(t.items, key, Succ(t.hs, e))
  {
    hide Matches, NextWith;
    var n := Succ(t.hs, e);
    var end := if n == -1 then |t.items| else n;
    NoMatchAtEnd(t.items, key);
    forall j | e + 1 <= j < end
      ensures t.items[j].key != key
    {
      assert t.hs[j] == hashfunc(t.items[j].key) % |t.items| != t.hs[e];
    }
    MatchesSkip(t.items, key, e + 1, end);
  }

  lemma {:induction false} WalkFindsFirst(t: Table, hashfunc: seq<byte> -> u32, key: seq<byte>, e: nat)
    requires t.HashedBy(hashfunc) && e < |t.items|
    requires t.hs[e] == hashfunc(key) % |t.items|
    ensures var m := Matches(t.items, key, e);
      var w := Walk(t, t.hs[e], e, key);
      && w.0 == (if m == [] then -1 else m[0])
      && (w.1 != -1 ==> t.hs[w.1] == t.hs[e])
      && (m != [] ==> m[1..] == if w.1 == -1 then [] else Matches(t.items, key, w.1))
      && (m == [] ==> w.1 == -1)
    decreases |t.items| - e
  {
    MatchesAfter(t, hashfunc, key, e);
    var n := Succ(t.hs, e);
    if t.items[e].key != key && n != -1 {
      WalkFindsFirst(t, hashfunc, key, n);
    }
  }

  /** The slot of a hash value shows whether any entry has that hash. */
  lemma SlotShowsChain(t: Table, h: nat)
    requires t.Valid() && h < |t.hs|
    ensures t.hs[t.slot[h]] == h ==> IsHead(t.hs, t.slot[h])
    ensures t.hs[t.slot[h]] != h ==> forall e :: 0 <= e < |t.hs| ==> t.hs[e] != h
  {
    var d := NextWith(t.hs, h, 0);
    if d != -1 {
      assert IsHead(t.hs, d) && t.slot[t.idx[d]] == d;
    }
  }

  /** A lookup takes the first element off what remains. */
  lemma StepTakesFirst(t: Table, hashfunc: seq<byte> -> u32, c: Cursor, key: seq<byte>)
    requires t.Valid() && t.HashedBy(hashfunc) && CursorIn(t, c)
    requires UsedFor(t, c, hashfunc(key) % |t.items|, key)
    ensures var h0 := hashfunc(key) % |t.items|;
      var rest := Remaining(t, c, key);
      var (e, c') := Step(t, c, h0, key);
      && e == (if rest == [] then -1 else rest[0])
      && UsedFor(t, c', h0, key)
      && Remaining(t, c', key) == if rest == [] then [] else rest[1..]
  {
    var h0 := hashfunc(key) % |t.items|;
    match c
    case Fresh =>
      var s := t.slot[h0];
      SlotShowsChain(t, h0);
      if t.hs[s] == h0 {
        MatchesSkip(t.items, key, 0, s);
        WalkFindsFirst(t, hashfunc, key, s);
      } else {
        MatchesSkip(t.items, key, 0, |t.items|);
        var n := Succ(t.hs, s);
        if n != -1 {
          MatchesSkip(t.items, key, n, |t.items|);
        }
      }
    case At(h, e) =>
      if t.hs[e] == h0 {
        WalkFindsFirst(t, hashfunc, key, e);
      } else {
        var n := Succ(t.hs, e);
        if n != -1 {
          NoMatchesLater(t.items, key, e, n);
        }
      }
    case Done(h) =>
  }

  lemma NoMatchesLater(items: seq<Item>, key: seq<byte>, a: nat, b: nat)
    requires a <= b <= |items| && Matches(items, key, a) == []
    ensures Matches(items, key, b) == []
  {
    forall j | b <= j < |items|
      ensures items[j].key != key
    {
    }
    MatchesSkip(items, key, b, |items|);
  }

  /** The entries delivered by `k` lookups in a row through one locator, -1
      standing for ENOENT. */
  function Run(t: Table, c: Cursor, h0: nat, key: seq<byte>, k: nat): (r: seq<int>)
    requires |t.items| == |t.hs| == |t.slot| && h0 < |t.hs| && CursorIn(t, c)
    requires 0 <= t.slot[h0] < |t.hs|
    ensures |r| == k
    decreases k
  {
    if k == 0 then []
    else var (e, c') := Step(t, c, h0, key); [e] + Run(t, c', h0, key, k - 1)
  }

  /** All entries of a key come in insertion order, and ENOENT for ever after. */
  lemma {:induction false} RunEnumerates(t: Table, hashfunc: seq<byte> -> u32, c: Cursor, h0: nat, key: seq<byte>,
                                         k: nat)
    requires t.Valid() && t.HashedBy(hashfunc) && CursorIn(t, c)
    requires h0 == hashfunc(key) % |t.items| && UsedFor(t, c, h0, key)
    ensures var rest := Remaining(t, c, key);
      forall i :: 0 <= i < k ==> Run(t, c, h0, key, k)[i] == if i < |rest| then rest[i] else -1
    decreases k
  {
    hide UsedFor, Step, Remaining, Matches;
    if k > 0 {
      StepTakesFirst(t, hashfunc, c, key);
      var c' := Step(t, c, h0, key).1;
      RunEnumerates(t, hashfunc, c', h0, key, k - 1);
      var later := Run(t, c', h0, key, k - 1);
      forall i | 0 < i < k
        ensures Run(t, c, h0, key, k)[i] == later[i - 1]
      {
      }
    }
  }

  lemma LookupsListAllMatches(t: Table, hashfunc: seq<byte> -> u32, key: seq<byte>, extra: nat)
    requires t.Valid() && t.HashedBy(hashfunc)
    ensures var h0 := hashfunc(key) % |t.items|;
      var m := Matches(t.items, key, 0);
      var r := Run(t, Fresh, h0, key, |m| + extra);
      && r[..|m|] == m
      && forall i :: |m| <= i < |m| + extra ==> r[i] == -1
  {
    hide Matches, Step;
    RunEnumerates(t, hashfunc, Fresh, hashfunc(key) % |t.items|, key, |Matches(t.items, key, 0)| + extra);
  }

  // ----- the end-of-file exception -----------------------------------------

  lemma {:induction false} NoDataFrom(recs: seq<Rec>, i: nat, k: nat)
    requires i <= k <= |recs|
    ensures |DataBytes(recs, i)| == |DataBytes(recs, k)| <==> forall j :: i <= j < k ==> recs[j].data == []
    decreases k - i
  {
    if i < k {
      NoDataFrom(recs, i, k - 1);
      DataBytesPrefix(recs, i, k - 1);
    }
  }

  /** The slot of the entry or a later one has a datum. */
  ghost predicate DataFrom(t: Table, e: nat)
    requires t.Valid() && e < |t.items|
  {
    exists s :: t.idx[e] <= s < |t.items| && t.items[t.slot[s]].data != []
  }

  lemma SlotsInRange(t: Table, e: nat)
    requires t.Valid() && e < |t.items|
    ensures |t.idx| == |t.slot| == |t.items| && 0 <= t.idx[e] < |t.items|
    ensures forall s :: 0 <= s < |t.items| ==> 0 <= t.slot[s] < |t.items|
  {
  }

  /** An entry is refused exactly when its own datum and those of all later slots
      are empty. */
  lemma ReadableIff(t: Table, e: nat)
    requires t.Valid() && e < |t.items|
    ensures t.Readable(e) <==> DataFrom(t, e)
  {
    hide DataBytes;
    var recs := t.Recs();
    var i := t.idx[e];
    SlotsInRange(t, e);
    NoDataFrom(recs, i, |recs|);
    DataBytesPrefix(recs, i, |recs|);
    assert forall s :: 0 <= s < |recs| ==> recs[s].data == t.items[t.slot[s]].data;
    if t.Readable(e) {
      var s :| i <= s < |recs| && recs[s].data != [];
    }
  }
}

module CitrusDb {
  import opened Basics
  import opened CitrusBytes
  import opened CitrusDbFormat
  import opened CitrusDbPlacement
  import opened CitrusMemStream
  import opened CitrusDbSpec

  /** `strncmp(a, b, 8) == 0`: equal up to eight characters or to a common NUL. */
  predicate SameMagic(a: seq<byte>, b: seq<byte>, k: nat)
    requires k <= 8 <= |a| && 8 <= |b|
    decreases 8 - k
  {
    k == 8 || (a[k] == b[k] && (a[k] == 0 || SameMagic(a, b, k + 1)))
  }

  /** The same bytes from `k` up to `n`, which is the end or a NUL in both. */
  ghost predicate SameUntil(a: seq<byte>, b: seq<byte>, k: nat, n: nat)
    requires 8 <= |a| && 8 <= |b|
  {
    k <= n <= 8 && (forall i :: k <= i < n ==> a[i] == b[i]) && (n < 8 ==> a[n] == b[n] == 0)
  }

  lemma {:induction false} SameMagicIff(a: seq<byte>, b: seq<byte>, k: nat)
    requires k <= 8 <= |a| && 8 <= |b|
    ensures SameMagic(a, b, k) <==> exists n :: SameUntil(a, b, k, n)
    decreases 8 - k
  {
    if k == 8 || a[k] == b[k] == 0 {
      assert SameUntil(a, b, k, k);
    } else {
      var m := k + 1;
      SameMagicIff(a, b, m);
      if n :| SameUntil(a, b, k, n) {
        assert SameUntil(a, b, m, n);
      }
      if a[k] == b[k] && exists n :: SameUntil(a, b, m, n) {
        var n :| SameUntil(a, b, m, n);
        assert SameUntil(a, b, k, n);
      }
    }
  }

  /** What the reader's sanity checks ask of a file. */
  predicate Acceptable(r: seq<byte>, magic: seq<byte>)
    requires |magic| >= 8
  {
    && 16 <= |r| && SameMagic(r, magic, 0)
    && FromBe32(r[12..16]) < |r|
    && FromBe32(r[8..12]) * 24 % 0x1_0000_0000 <= |r| - FromBe32(r[12..16])
  }

  datatype EntryResult = Entry(key: seq<byte>, data: seq<byte>) | BadIndex | BadFile

  ghost function EntryOutcome(t: Table, e: nat): EntryResult
    requires t.Valid() && e < |t.items|
  {
    if t.Readable(e) then Entry(t.items[e].key, t.items[e].data) else BadFile
  }

  /** What there is to read of every entry, in insertion order. */
  ghost function EntryOutcomes(t: Table): (r: seq<EntryResult>)
    requires t.Valid()
    ensures |r| == |t.items|
  {
    seq(|t.items|, e requires 0 <= e < |t.items| => EntryOutcome(t, e))
  }

  /** The same in the order of the slots. */
  ghost function BySlot(t: Table): (r: seq<EntryResult>)
    requires t.Valid()
    ensures |r| == |t.items|
  {
    seq(|t.items|, i requires 0 <= i < |t.items| => EntryOutcome(t, t.slot[i]))
  }

  /** Reading every slot number once reads every entry once. */
  lemma SlotsListEntries(t: Table)
    requires t.Valid()
    ensures multiset(BySlot(t)) == multiset(EntryOutcomes(t))
  {
    hide BySlot, EntryOutcomes, Placed;
    forall v: EntryResult
      ensures multiset(BySlot(t))[v] == multiset(EntryOutcomes(t))[v]
    {
      SameCount(t, v);
    }
  }

  lemma SameCount(t: Table, v: EntryResult)
    requires t.Valid()
    ensures multiset(BySlot(t))[v] == multiset(EntryOutcomes(t))[v]
  {
    hide EntryOutcome, IsHead, Sum, Reduced;
    var all := EntryOutcomes(t);
    CountIsSum(all, v);
    CountIsSum(BySlot(t), v);
    SlotSum(Indicator(all, v), t.slot, t.idx);
    assert Sizes(Indicator(all, v), t.slot, |t.slot|) == Indicator(BySlot(t), v);
  }

  /** One for every place of `v`. */
  ghost function Indicator(q: seq<EntryResult>, v: EntryResult): (f: seq<nat>)
    ensures |f| == |q|
  {
    seq(|q|, i requires 0 <= i < |q| => if q[i] == v then 1 else 0)
  }

  lemma {:induction false} CountIsSum(q: seq<EntryResult>, v: EntryResult)
    ensures multiset(q)[v] == Sum(Indicator(q, v))
  {
    if q != [] {
      var p := q[..|q| - 1];
      CountIsSum(p, v);
      assert q == p + [q[|q| - 1]];
      assert Indicator(q, v)[..|q| - 1] == Indicator(p, v);
    }
  }

  class Locator {
    var hashval: u32
    var offset: nat

    constructor ()
      ensures offset == 0
    {
      hashval, offset := 0, 0;
    }
  }

  /** The byte offset a locator keeps for a cursor. */
  ghost predicate Stands(t: Table, region: seq<byte>, hashval: nat, offset: nat, c: Cursor)
    requires t.Valid()
  {
    match c
    case Fresh => offset == 0
    case At(h, e) => e < |t.items| && hashval == h && offset == SlotOff(t.idx[e])
    case Done(h) => hashval == h && offset >= |region| > 0
  }

  /** What the words of a record say about the entry in its slot. */
  ghost predicate Describes(dex: seq<byte>, t: Table, e: nat)
    requires t.Valid() && e < |t.items|
  {
    var recs, s := t.Recs(), t.idx[e];
    && |dex| == 24
    && FromBe32(dex[0..4]) == t.hs[e]
    && FromBe32(dex[4..8]) == (if Succ(t.hs, e) == -1 then 0 else SlotOff(t.idx[Succ(t.hs, e)]))
    && FromBe32(dex[8..12]) == KeyOff(recs, s)
    && FromBe32(dex[12..16]) == |t.items[e].key|
    && FromBe32(dex[16..20]) == DataOff(recs, s)
    && FromBe32(dex[20..24]) == |t.items[e].data|
  }

  lemma RecordWords(recs: seq<Rec>, i: nat, dex: seq<byte>)
    requires WellFormed(recs) && i < |recs| && dex == Record(recs, i)
    requires recs[i].hash < 0x1_0000_0000 && SlotOff(recs[i].next) < 0x1_0000_0000
    requires KeyOff(recs, i) < 0x1_0000_0000 && |recs[i].key| < 0x1_0000_0000
    requires DataOff(recs, i) < 0x1_0000_0000 && |recs[i].data| < 0x1_0000_0000
    ensures FromBe32(dex[0..4]) == recs[i].hash && FromBe32(dex[4..8]) == SlotOff(recs[i].next)
    ensures FromBe32(dex[8..12]) == KeyOff(recs, i) && FromBe32(dex[12..16]) == |recs[i].key|
    ensures FromBe32(dex[16..20]) == DataOff(recs, i) && FromBe32(dex[20..24]) == |recs[i].data|
  {
    hide Be32, FromBe32, KeyOff, DataOff, SlotOff;
    var a, b, c := Be32(recs[i].hash), Be32(SlotOff(recs[i].next)), Be32(KeyOff(recs, i));
    var d, e, f := Be32(|recs[i].key|), Be32(DataOff(recs, i)), Be32(|recs[i].data|);
    assert dex == a + b + c + d + e + f;
    assert dex[0..4] == a && dex[4..8] == b && dex[8..12] == c;
    assert dex[12..16] == d && dex[16..20] == e && dex[20..24] == f;
    FromBe32OfBe32(recs[i].hash);
    FromBe32OfBe32(SlotOff(recs[i].next));
    FromBe32OfBe32(KeyOff(recs, i));
    FromBe32OfBe32(|recs[i].key|);
    FromBe32OfBe32(DataOff(recs, i));
    FromBe32OfBe32(|recs[i].data|);
  }

  /** The record of an entry, read back out of the file. */
  lemma RecordOf(t: Table, region: seq<byte>, magic: seq<byte>, e: nat)
    requires t.StoredIn(region, magic) && e < |t.items|
    ensures 16 <= SlotOff(t.idx[e]) && SlotOff(t.idx[e]) + 24 <= |region|
    ensures Describes(region[SlotOff(t.idx[e])..SlotOff(t.idx[e]) + 24], t, e)
  {
    hide Image, Record, KeyOff, DataOff, Be32, FromBe32, Placed;
    EntryAtSlot(t, e);
    var recs, s := t.Recs(), t.idx[e];
    RecordAt(magic, recs, s);
    KeyAt(magic, recs, s);
    DataAt(magic, recs, s);
    if recs[s].next != -1 {
      RecordAt(magic, recs, recs[s].next);
    }
    ReducedBelowSize(t, region, magic, e);
    RecordWords(recs, s, region[SlotOff(s)..SlotOff(s) + 24]);
  }

  lemma EntryAtSlot(t: Table, e: nat)
    requires t.Valid() && e < |t.items|
    ensures |t.idx| == |t.slot| == |t.items|
    ensures 0 <= t.idx[e] < |t.items| && t.slot[t.idx[e]] == e
    ensures t.Recs()[t.idx[e]] == Rec(t.hs[e], if Succ(t.hs, e) == -1 then -1 else t.idx[Succ(t.hs, e)],
      t.items[e].key, t.items[e].data)
  {
  }

  lemma TableShape(t: Table)
    requires t.Valid()
    ensures |t.idx| == |t.slot| == |t.items|
    ensures forall e :: 0 <= e < |t.items| ==> 0 <= t.idx[e] < |t.items|
    ensures forall s :: 0 <= s < |t.items| ==> 0 <= t.slot[s] < |t.items| && t.idx[t.slot[s]] == s
  {
  }

  lemma ReducedBelowSize(t: Table, region: seq<byte>, magic: seq<byte>, e: nat)
    requires t.StoredIn(region, magic) && e < |t.items|
    ensures t.hs[e] < |t.items| && 16 + 24 * |t.items| <= |region| < 0x1_0000_0000
  {
    hide Image;
    RecordAt(magic, t.Recs(), |t.items| - 1);
  }

  lemma HeaderWords(t: Table, region: seq<byte>, magic: seq<byte>)
    requires t.StoredIn(region, magic)
    ensures 16 <= |region| && region[..8] == magic
    ensures FromBe32(region[8..12]) == |t.items| && FromBe32(region[12..16]) == 16
    ensures 16 + 24 * |t.items| <= |region|
  {
    hide Image, Be32, FromBe32, Placed, ImageSize;
    HeaderAt(magic, t.Recs());
    ReducedBelowSize(t, region, magic, 0);
    FromBe32OfBe32(|t.items|);
    FromBe32OfBe32(16);
  }

  class Db {
    const region: seq<byte>
    const hashfunc: seq<byte> -> u32

    constructor (region: seq<byte>, hashfunc: seq<byte> -> u32)
      ensures this.region == region && this.hashfunc == hashfunc
    {
      this.region, this.hashfunc := region, hashfunc;
    }

    /** Opens a file, or returns null where the source answers EFTYPE. */
    static method Open(r: seq<byte>, magic: seq<byte>, hashfunc: seq<byte> -> u32) returns (db: Db?)
      requires |magic| >= 8
      ensures db != null <==> Acceptable(r, magic)
      ensures db != null ==> fresh(db) && db.region == r && db.hashfunc == hashfunc
    {
      db := null;
      var ms := new MemStream.Bind(r);
      var dhx := ms.GetRegion(16);
      if dhx == None {
        return;
      }
      assert dhx.value == r[..16];
      SameMagicPrefix(r, magic, 0);
      if !SameMagic(dhx.value, magic, 0) {
        return;
      }
      assert dhx.value[12..16] == r[12..16] && dhx.value[8..12] == r[8..12];
      var ok := ms.SeekSet(FromBe32(dhx.value[12..16]));
      if !ok {
        return;
      }
      var rest := ms.Remainder();
      if FromBe32(dhx.value[8..12]) * 24 % 0x1_0000_0000 > rest {
        return;
      }
      db := new Db(r, hashfunc);
    }

    /** Compares the key of the record `dex` and, if it is the one sought, fetches
        the datum. */
    method Probe(ms: MemStream, dex: seq<byte>, key: seq<byte>, ghost t: Table, ghost magic: seq<byte>, ghost e: nat)
      returns (res: Option<LookupResult>)
      requires t.StoredIn(region, magic) && e < |t.items| && Describes(dex, t, e) && ms.region == region
      modifies ms
      ensures res == if t.items[e].key == key then Some(t.Outcome(e)) else None
    {
      hide Image, FromBe32, Placed, KeyBytes, DataBytes;
      EntryAtSlot(t, e);
      KeyAt(magic, t.Recs(), t.idx[e]);
      DataAt(magic, t.Recs(), t.idx[e]);
      if FromBe32(dex[12..16]) != |key| {
        return None;
      }
      var ok := ms.SeekSet(FromBe32(dex[8..12]));
      if !ok {
        return Some(BadFormat);
      }
      var r := ms.GetRegion(|key|);
      if r == None {
        return Some(BadFormat);
      }
      if r.value != key {
        return None;
      }
      ok := ms.SeekSet(FromBe32(dex[16..20]));
      if !ok {
        return Some(BadFormat);
      }
      var data := ms.GetRegion(FromBe32(dex[20..24]));
      if data == None {
        return Some(BadFormat);
      }
      return Some(Found(data.value));
    }

    /** Notes in the locator where the next lookup has to start. */
    method SavePosition(dl: Locator?, offset: nat, ghost t: Table, ghost magic: seq<byte>, ghost h: nat, ghost n: int)
      requires t.StoredIn(region, magic) && -1 <= n < |t.items|
      requires dl != null ==> dl.hashval == h
      requires offset == if n == -1 then 0 else SlotOff(t.idx[n])
      modifies if dl == null then {} else {dl}
      ensures dl != null ==> dl.hashval == h && Stands(t, region, dl.hashval, dl.offset, Moved(h, n))
    {
      HeaderWords(t, region, magic);
      if n != -1 {
        EntryAtSlot(t, n);
      }
      if dl != null {
        dl.offset := offset;
        if offset == 0 {
          dl.offset := |region|;
        }
      }
    }

    /** The chain walk: from the record at `offset`, which is that of entry `e0`. */
    method Chase(ms: MemStream, offset0: nat, hashval: u32, key: seq<byte>, dl: Locator?, ghost t: Table,
                 ghost magic: seq<byte>, ghost e0: nat)
      returns (res: LookupResult)
      requires t.StoredIn(region, magic) && e0 < |t.items| && ms.region == region
      requires offset0 == SlotOff(t.idx[e0]) && (dl != null ==> dl.hashval == hashval)
      modifies ms, if dl == null then {} else {dl}
      ensures var w := Walk(t, hashval, e0, key);
        && res == t.Outcome(w.0)
        && (dl != null ==> Stands(t, region, dl.hashval, dl.offset, Moved(hashval, w.1)))
    {
      hide Image, FromBe32, Placed, Paired, KeyOff, DataOff, Succ, Stands;
      TableShape(t);
      ghost var w := Walk(t, hashval, e0, key);
      ghost var e := e0;
      ghost var n: int := 0;
      var offset := offset0;
      var again := true;
      while again
        invariant e < |t.items| && (dl != null ==> dl.hashval == hashval)
        invariant again ==> offset == SlotOff(t.idx[e]) && Walk(t, hashval, e, key) == w
        invariant !again ==>
          w == (-1, -1) && (dl != null ==> Stands(t, region, dl.hashval, dl.offset, Moved(hashval, -1)))
        decreases again, |t.items| - e
      {
        RecordOf(t, region, magic, e);
        n := Succ(t.hs, e);
        var ok := ms.SeekSet(offset);
        if !ok {
          return BadFormat;
        }
        var dex := ms.GetRegion(24);
        if dex == None {
          return BadFormat;
        }
        offset := FromBe32(dex.value[4..8]);
        SavePosition(dl, offset, t, magic, hashval, n);
        if FromBe32(dex.value[0..4]) != hashval {
          return NoEntry;
        }
        var hit := Probe(ms, dex.value, key, t, magic, e);
        if hit.Some? {
          return hit.value;
        }
        again := offset != 0;
        if again {
          e := n;
        }
      }
      return NoEntry;
    }

    /** Looks `key` up; with a locator, continues where the last call stopped. */
    method Lookup(key: seq<byte>, dl: Locator?, ghost t: Table, ghost magic: seq<byte>, ghost c: Cursor)
      returns (res: LookupResult)
      requires t.StoredIn(region, magic) && CursorIn(t, c)
      requires if dl == null then c == Fresh else Stands(t, region, dl.hashval, dl.offset, c)
      modifies if dl == null then {} else {dl}
      ensures var (e, c') := Step(t, c, hashfunc(key) % |t.items|, key);
        && res == t.Outcome(e)
        && (dl != null ==> Stands(t, region, dl.hashval, dl.offset, c'))
    {
      hide Image, FromBe32, Placed, Walk, Paired, ImageSize;
      TableShape(t);
      HeaderWords(t, region, magic);
      var ms := new MemStream.Bind(region);
      var dhx := ms.GetRegion(16);
      assert dhx.value[8..12] == region[8..12] && dhx.value[12..16] == region[12..16];
      var numEntries := FromBe32(dhx.value[8..12]);
      if numEntries == 0 {
        return NoEntry;
      }
      var hashval: u32, offset: nat;
      ghost var e: nat;
      if dl != null && dl.offset > 0 {
        hashval := dl.hashval;
        offset := dl.offset;
        if offset >= |region| {
          return NoEntry;
        }
        e := c.e;
      } else {
        hashval := hashfunc(key) % numEntries;
        offset := (FromBe32(dhx.value[12..16]) + hashval * 24) % 0x1_0000_0000;
        if dl != null {
          dl.hashval := hashval;
        }
        e := t.slot[hashval];
        assert offset == SlotOff(t.idx[e]);
      }
      ghost var w := Walk(t, hashval, e, key);
      assert Step(t, c, hashfunc(key) % |t.items|, key) == (w.0, Moved(hashval, w.1));
      res := Chase(ms, offset, hashval, key, dl, t, magic, e);
    }

    /** The entry in slot `i`, key and datum. */
    method GetEntry(i: int, ghost t: Table, ghost magic: seq<byte>) returns (res: EntryResult)
      requires t.StoredIn(region, magic)
      ensures res == if 0 <= i < |t.items| then EntryOutcome(t, t.slot[i]) else BadIndex
    {
      hide Image, FromBe32, Placed, KeyBytes, DataBytes;
      TableShape(t);
      HeaderWords(t, region, magic);
      var ms := new MemStream.Bind(region);
      var dhx := ms.GetRegion(16);
      assert dhx.value[8..12] == region[8..12] && dhx.value[12..16] == region[12..16];
      var numEntries := FromBe32(dhx.value[8..12]);
      if i < 0 || i >= numEntries {
        return BadIndex;
      }
      ghost var e: nat := t.slot[i];
      RecordOf(t, region, magic, e);
      EntryAtSlot(t, e);
      var ok := ms.SeekSet(FromBe32(dhx.value[12..16]) + i * 24);
      if !ok {
        return BadFile;
      }
      var dex := ms.GetRegion(24);
      if dex == None {
        return BadFile;
      }
      res := ReadEntry(ms, dex.value, t, magic, e);
    }

    /** Key and datum of the record `dex`. */
    method ReadEntry(ms: MemStream, dex: seq<byte>, ghost t: Table, ghost magic: seq<byte>, ghost e: nat)
      returns (res: EntryResult)
      requires t.StoredIn(region, magic) && e < |t.items| && Describes(dex, t, e) && ms.region == region
      modifies ms
      ensures res == EntryOutcome(t, e)
    {
      hide Image, FromBe32, Placed, KeyBytes, DataBytes;
      EntryAtSlot(t, e);
      KeyAt(magic, t.Recs(), t.idx[e]);
      DataAt(magic, t.Recs(), t.idx[e]);
      var ok := ms.SeekSet(FromBe32(dex[8..12]));
      if !ok {
        return BadFile;
      }
      var key := ms.GetRegion(FromBe32(dex[12..16]));
      if key == None {
        return BadFile;
      }
      ok := ms.SeekSet(FromBe32(dex[16..20]));
      if !ok {
        return BadFile;
      }
      var data := ms.GetRegion(FromBe32(dex[20..24]));
      if data == None {
        return BadFile;
      }
      return Entry(key.value, data.value);
    }

    /** All slot numbers in turn, as a caller lists a database: every entry comes once. */
    method ListAll(ghost t: Table, ghost magic: seq<byte>) returns (all: seq<EntryResult>)
      requires t.StoredIn(region, magic)
      ensures multiset(all) == multiset(EntryOutcomes(t))
    {
      hide Image, FromBe32, Placed;
      TableShape(t);
      HeaderWords(t, region, magic);
      var n := FromBe32(region[8..12]);
      all := [];
      for i := 0 to n
        invariant all == BySlot(t)[..i]
      {
        var r := GetEntry(i, t, magic);
        all := all + [r];
      }
      assert BySlot(t)[..n] == BySlot(t);
      SlotsListEntries(t);
    }
  }

  lemma {:induction false} SameMagicPrefix(r: seq<byte>, magic: seq<byte>, k: nat)
    requires |r| >= 16 && |magic| >= 8 && k <= 8
    ensures SameMagic(r[..16], magic, k) == SameMagic(r, magic, k)
    decreases 8 - k
  {
    if k < 8 {
      SameMagicPrefix(r, magic, k + 1);
    }
  }

  // ----- what was written opens, and is the same dictionary -----------------

  /** A written database passes the reader's checks. */
  lemma WrittenOpens(t: Table, region: seq<byte>, magic: seq<byte>)
    requires |magic| >= 8 && t.StoredIn(region, magic[..8])
    ensures Acceptable(region, magic)
  {
    hide Image, FromBe32, Placed;
    HeaderWords(t, region, magic[..8]);
    SameMagicSym(region, magic, 0);
  }

  lemma {:induction false} SameMagicSym(r: seq<byte>, magic: seq<byte>, k: nat)
    requires k <= 8 <= |magic| && 8 <= |r| && r[..8] == magic[..8]
    ensures SameMagic(r, magic, k)
    decreases 8 - k
  {
    if k < 8 {
      assert r[k] == r[..8][k] == magic[..8][k];
      SameMagicSym(r, magic, k + 1);
    }
  }

  /** A file that has been cut short opens exactly if its directory is whole. */
  lemma TruncatedOpensIff(t: Table, region: seq<byte>, magic: seq<byte>, k: nat)
    requires |magic| >= 8 && t.StoredIn(region, magic[..8]) && t.items != [] && k <= |region|
    ensures Acceptable(region[..k], magic) <==> k >= 16 + 24 * |t.items|
  {
    hide Image, FromBe32, Placed;
    HeaderWords(t, region, magic[..8]);
    var r := region[..k];
    if k >= 16 {
      assert r[..8] == region[..8] && r[8..12] == region[8..12] && r[12..16] == region[12..16];
      SameMagicSym(r, magic, 0);
    }
  }

  /** An empty database does not open: its directory would start at its end. */
  lemma EmptyDoesNotOpen(region: seq<byte>, magic: seq<byte>)
    requires |magic| >= 8 && region == Image(magic[..8], [])
    ensures !Acceptable(region, magic)
  {
    HeaderAt(magic[..8], []);
    FromBe32OfBe32(16);
    assert ImageSize([]) == 16;
  }
}
