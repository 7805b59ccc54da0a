/** Writer and reader together. */
module CitrusDbRoundTrip {
  import opened Basics
  import opened CitrusBytes
  import opened CitrusDbFormat
  import opened CitrusDbPlacement
  import opened CitrusDbSpec
  import opened CitrusDbFactory
  import opened CitrusDb

  /** The file a factory has just written stores its entries, hashed as the reader
      will hash its keys. */
  lemma SerializedIsStored(f: Factory, region: seq<byte>, magic: seq<byte>, slot: seq<int>, idx: seq<int>)
    requires f.Valid() && f.HashesAgree() && f.numEntries > 0 && |magic| >= 8 && f.CalcSize() < 0x1_0000_0000
    requires Placed(Wanted(f.entries), slot, idx)
    requires var recs := RecsOf(ItemsOf(f.entries), Wanted(f.entries), slot, idx);
      ImageSize(recs) == f.CalcSize() && region == Image(magic[..8], recs)
    ensures var t := Table(ItemsOf(f.entries), Wanted(f.entries), slot, idx);
      t.StoredIn(region, magic[..8]) && t.HashedBy(f.hashfunc)
  {
    hide Placed, Image;
  }

  /** The answer to a single lookup: the datum of the first entry added with the
      key, ENOENT if there is none, and EFTYPE if its datum is empty and all data in
      later slots are. */
  lemma LookupGivesFirst(t: Table, hashfunc: seq<byte> -> u32, key: seq<byte>)
    requires t.Valid() && t.HashedBy(hashfunc)
    ensures var m := Matches(t.items, key, 0);
      t.Outcome(Step(t, Fresh, hashfunc(key) % |t.items|, key).0)
        == if m == [] then NoEntry else if DataFrom(t, m[0]) then Found(t.items[m[0]].data) else BadFormat
  {
    hide Placed, Step;
    StepTakesFirst(t, hashfunc, Fresh, key);
    var m := Matches(t.items, key, 0);
    if m != [] {
      ReadableIff(t, m[0]);
    }
  }

  /** Without empty data nothing is refused. */
  lemma NothingRefused(t: Table, e: nat)
    requires t.Valid() && e < |t.items| && t.items[e].data != []
    ensures DataFrom(t, e)
  {
    assert t.slot[t.idx[e]] == e;
  }

  // ----- a file byte by byte ----------------------------------------------------

  /** The name MAGIC, two entries, the directory at 16; the record of `bc`, which ends the chain,
      and that of `a`, which continues it at 16; the keys and the data, each area a multiple of 16
      bytes long. */
  function SampleBytes(): seq<byte> {
    [77, 65, 71, 73, 67, 0, 0, 0] + [0, 0, 0, 2] + [0, 0, 0, 16]
    + ([0, 0, 0, 1] + [0, 0, 0, 0] + [0, 0, 0, 64] + [0, 0, 0, 2] + [0, 0, 0, 80] + [0, 0, 0, 3])
    + ([0, 0, 0, 1] + [0, 0, 0, 16] + [0, 0, 0, 66] + [0, 0, 0, 1] + [0, 0, 0, 96] + [0, 0, 0, 1])
    + ([98, 99, 97] + Zeros(13)) + ([121, 122, 0] + Zeros(13)) + ([120] + Zeros(15))
  }

  lemma SampleRecords(recs: seq<Rec>)
    requires recs == [Rec(1, -1, [98, 99], [121, 122, 0]), Rec(1, 0, [97], [120])]
    ensures Record(recs, 0)
      == [0, 0, 0, 1] + [0, 0, 0, 0] + [0, 0, 0, 64] + [0, 0, 0, 2] + [0, 0, 0, 80] + [0, 0, 0, 3]
    ensures Record(recs, 1)
      == [0, 0, 0, 1] + [0, 0, 0, 16] + [0, 0, 0, 66] + [0, 0, 0, 1] + [0, 0, 0, 96] + [0, 0, 0, 1]
    ensures KeyBytes(recs, 2) == [98, 99, 97]
    ensures DataBytes(recs, 2) == ([121, 122, 0] + Zeros(13)) + ([120] + Zeros(15))
  {
    assert KeyBytes(recs, 1) == [98, 99];
    assert PadOf(3) == 13 && PadOf(1) == 15;
    assert DataBytes(recs, 1) == [121, 122, 0] + Zeros(13);
    assert KeyStart(2) == 64 && DataStart(recs) == 80;
  }

  lemma SampleImage()
    ensures var recs := [Rec(1, -1, [98, 99], [121, 122, 0]), Rec(1, 0, [97], [120])];
      Image([77, 65, 71, 73, 67, 0, 0, 0], recs) == SampleBytes()
  {
    hide Record, KeyBytes, DataBytes;
    var recs := [Rec(1, -1, [98, 99], [121, 122, 0]), Rec(1, 0, [97], [120])];
    SampleRecords(recs);
    assert DirBytes(recs, 1) == Record(recs, 0);
    assert DirBytes(recs, 2) == Record(recs, 0) + Record(recs, 1);
    assert PadOf(48) == 0 && Zeros(0) == [] && PadOf(3) == 13;
  }

  /** The first entry has the slot of its hash, the other one the slot that is left. */
  lemma SamplePlaced(items: seq<Item>, slot: seq<int>, idx: seq<int>)
    requires Placed([1, 1], slot, idx) && items == [Item([97], [120]), Item([98, 99], [121, 122, 0])]
    ensures slot == idx == [1, 0]
    ensures RecsOf(items, [1, 1], slot, idx) == [Rec(1, -1, [98, 99], [121, 122, 0]), Rec(1, 0, [97], [120])]
  {
    assert IsHead([1, 1], 0) && idx[0] == 1;
    assert slot[1] == 0 && idx[1] == 0;
    assert Succ([1, 1], 0) == 1 && Succ([1, 1], 1) == -1;
  }

  /** A file of two entries whose hashes are odd. */
  method SampleFile(hashfunc: seq<byte> -> u32) returns (out: seq<byte>)
    requires hashfunc([97]) % 2 == hashfunc([98, 99]) % 2 == 1
    ensures out == SampleBytes()
  {
    hide Image, ImageSize, Placed, RecsOf, Wanted, ItemsOf, SampleBytes;
    hide Factory.Valid, Factory.Unreduced, Factory.CalcSize;
    var df := new Factory(hashfunc);
    NoEntries();
    df.Add([97], [120]);
    df.Add([98, 99], [121, 122, 0]);
    SampleWanted(df);
    var size := df.CalcSize();
    var ptr := new byte[size](_ => 0);
    var magic: seq<byte> := [77, 65, 71, 73, 67, 0, 0, 0];
    ghost var slot, idx := df.Serialize(magic, ptr);
    SamplePlaced(ItemsOf(df.entries), slot, idx);
    SampleImage();
    out := ptr[..];
    assert ptr[..size] == out && magic[..8] == magic;
  }

  lemma NoEntries()
    ensures ItemsOf([]) == []
  {
  }

  lemma SampleWanted(df: Factory)
    requires df.Unreduced() && ItemsOf(df.entries) == [Item([97], [120]), Item([98, 99], [121, 122, 0])]
    requires df.hashfunc([97]) % 2 == df.hashfunc([98, 99]) % 2 == 1
    ensures Wanted(df.entries) == [1, 1]
  {
    assert |ItemsOf(df.entries)| == |df.entries|;
    assert ItemsOf(df.entries)[0].key == df.entries[0].key && ItemsOf(df.entries)[1].key == df.entries[1].key;
  }

  // ----- stored hashes that do not agree -------------------------------------

  /** Entry `e` has the key and stores that hash. */
  ghost predicate Stores(t: Table, h0: nat, key: seq<byte>, e: int) {
    0 <= e < |t.items| == |t.hs| && t.hs[e] == h0 && t.items[e].key == key
  }

  lemma {:induction false} WalkFindsIff(t: Table, e: nat, key: seq<byte>)
    requires |t.items| == |t.hs| && e < |t.items|
    ensures var r := Walk(t, t.hs[e], e, key).0;
      && (r == -1 ==> forall j :: e <= j ==> !Stores(t, t.hs[e], key, j))
      && (r != -1 ==> Stores(t, t.hs[e], key, r) && forall j :: e <= j < r ==> !Stores(t, t.hs[e], key, j))
    decreases |t.items| - e
  {
    var n := Succ(t.hs, e);
    if n != -1 {
      WalkFindsIff(t, n, key);
    }
  }

  /** Whatever hashes the file stores, a fresh lookup finds the first entry with that key
      that stores the hash the reader computes, and none exactly if there is none. */
  lemma FoundIff(t: Table, h0: nat, key: seq<byte>)
    requires t.Valid() && h0 < |t.items|
    ensures var r := Step(t, Fresh, h0, key).0;
      && (r == -1 <==> forall j :: !Stores(t, h0, key, j))
      && (r != -1 ==> Stores(t, h0, key, r) && forall j :: 0 <= j < r ==> !Stores(t, h0, key, j))
  {
    SlotShowsChain(t, h0);
    var s := t.slot[h0];
    if t.hs[s] == h0 {
      WalkFindsIff(t, s, key);
    }
  }

  // ----- adding after serializing --------------------------------------------

  /** The hash stored for entry `e` after serializing with so many entries each time:
      every time that the entry is there, it is reduced. */
  function StoredHash(h: nat, e: nat, sizes: seq<nat>): (r: nat)
    ensures sizes != [] && e < sizes[|sizes| - 1] ==> r < sizes[|sizes| - 1]
  {
    if sizes == [] then h
    else
      var n := sizes[|sizes| - 1];
      var r := StoredHash(h, e, sizes[..|sizes| - 1]);
      if e < n then r % n else r
  }

  /** The table has been written by the last of several serializes. */
  ghost predicate HashedInRounds(t: Table, hashfunc: seq<byte> -> u32, sizes: seq<nat>) {
    && |t.hs| == |t.items| && sizes != [] && sizes[|sizes| - 1] == |t.items|
    && forall e :: 0 <= e < |t.items| ==> t.hs[e] == StoredHash(hashfunc(t.items[e].key), e, sizes)
  }

  /** An entry with the key whose stored hash is the one to be asked for. */
  ghost predicate Survives(t: Table, hashfunc: seq<byte> -> u32, sizes: seq<nat>, key: seq<byte>, e: int) {
    0 <= e < |t.items| && t.items[e].key == key && StoredHash(hashfunc(key), e, sizes) == hashfunc(key) % |t.items|
  }

  /** What is found is the first entry with the key that keeps its hash through all the
      reductions, and nothing exactly if none does. */
  lemma FoundAfterRoundsIff(t: Table, hashfunc: seq<byte> -> u32, sizes: seq<nat>, key: seq<byte>)
    requires t.Valid() && HashedInRounds(t, hashfunc, sizes)
    ensures var r := Step(t, Fresh, hashfunc(key) % |t.items|, key).0;
      && (r == -1 <==> forall e :: !Survives(t, hashfunc, sizes, key, e))
      && (r != -1 ==> Survives(t, hashfunc, sizes, key, r))
      && forall e :: 0 <= e < r ==> !Survives(t, hashfunc, sizes, key, e)
  {
    hide Placed, Step, StoredHash;
    var h0 := hashfunc(key) % |t.items|;
    FoundIff(t, h0, key);
    assert forall e :: Survives(t, hashfunc, sizes, key, e) <==> Stores(t, h0, key, e);
  }

  /** An entry with the key that was added after the first serialize, or whose hash the first
      reduction does not change for the second. */
  ghost predicate Unharmed(items: seq<Item>, hashfunc: seq<byte> -> u32, n: nat, key: seq<byte>, e: int) {
    && 0 <= e < |items| && items[e].key == key
    && (e < n ==> hashfunc(key) % n % |items| == hashfunc(key) % |items|)
  }

  /** Serialized with `n` entries, added to, and serialized again: what is found is the first
      unharmed entry with the key, and nothing exactly if there is none. */
  lemma FoundAfterAddIff(t: Table, hashfunc: seq<byte> -> u32, n: nat, key: seq<byte>)
    requires t.Valid() && HashedInRounds(t, hashfunc, [n, |t.items|])
    ensures var r := Step(t, Fresh, hashfunc(key) % |t.items|, key).0;
      && (r == -1 <==> forall e :: !Unharmed(t.items, hashfunc, n, key, e))
      && (r != -1 ==> Unharmed(t.items, hashfunc, n, key, r))
      && forall e :: 0 <= e < r ==> !Unharmed(t.items, hashfunc, n, key, e)
  {
    hide Placed, Step, StoredHash, HashedInRounds;
    var sizes := [n, |t.items|];
    FoundAfterRoundsIff(t, hashfunc, sizes, key);
    forall e | 0 <= e < |t.items|
      ensures Survives(t, hashfunc, sizes, key, e) <==> Unharmed(t.items, hashfunc, n, key, e)
    {
      TwoReductions(hashfunc(key), e, n, |t.items|);
    }
    assert forall e :: Survives(t, hashfunc, sizes, key, e) <==> Unharmed(t.items, hashfunc, n, key, e);
  }

  lemma TwoReductions(h: nat, e: nat, n: nat, m: nat)
    requires e < m
    ensures StoredHash(h, e, [n, m]) == if e < n then h % n % m else h % m
  {
    assert [n, m][..1] == [n] && [n][..0] == [];
    assert StoredHash(h, e, [n]) == if e < n then h % n else h;
  }

  function Flat(batches: seq<seq<Item>>): seq<Item> {
    if batches == [] then [] else Flat(batches[..|batches| - 1]) + batches[|batches| - 1]
  }

  /** How many entries there are after each batch. */
  function Totals(batches: seq<seq<Item>>): (r: seq<nat>)
    ensures |r| == |batches| && forall i :: 0 <= i < |r| ==> r[i] <= |Flat(batches)|
    ensures batches != [] ==> r[|r| - 1] == |Flat(batches)|
  {
    if batches == [] then [] else Totals(batches[..|batches| - 1]) + [|Flat(batches)|]
  }

  /** The hashes that the entries store. */
  ghost predicate StoresHashes(f: Factory, sizes: seq<nat>)
    reads f, f.entries
  {
    forall e :: 0 <= e < |f.entries| ==>
      f.entries[e].hashvalue as nat == StoredHash(f.hashfunc(f.entries[e].key), e, sizes)
  }

  method AddOne(f: Factory, item: Item, ghost sizes: seq<nat>)
    requires f.Valid() && StoresHashes(f, sizes)
    requires forall i :: 0 <= i < |sizes| ==> sizes[i] <= |f.entries|
    modifies f
    ensures f.Valid() && StoresHashes(f, sizes) && |f.entries| == |old(f.entries)| + 1
    ensures f.entries[..|old(f.entries)|] == old(f.entries) && fresh(f.entries[|old(f.entries)|])
    ensures ItemsOf(f.entries) == old(ItemsOf(f.entries)) + [item]
  {
    hide ItemsOf, StoredHash, Factory.Valid;
    ghost var before := f.entries;
    NotReduced(f.hashfunc(item.key), |f.entries|, sizes);
    f.Add(item.key, item.data);
    var de := f.entries[|before|];
    assert f.entries == before + [de];
    KeysOfItems(f.entries);
    forall e | 0 <= e < |before|
      ensures f.entries[e].hashvalue as nat == StoredHash(f.hashfunc(f.entries[e].key), e, sizes)
    {
      assert f.entries[e] == before[e];
    }
  }

  lemma KeysOfItems(entries: seq<Entry>)
    ensures forall e :: 0 <= e < |entries| ==> ItemsOf(entries)[e].key == entries[e].key
  {
  }

  method AddAll(f: Factory, items: seq<Item>, ghost sizes: seq<nat>)
    requires f.Valid() && StoresHashes(f, sizes)
    requires forall i :: 0 <= i < |sizes| ==> sizes[i] <= |f.entries|
    modifies f
    ensures f.Valid() && StoresHashes(f, sizes) && |f.entries| == |old(f.entries)| + |items|
    ensures f.entries[..|old(f.entries)|] == old(f.entries) && fresh(f.entries[|old(f.entries)|..])
    ensures ItemsOf(f.entries) == old(ItemsOf(f.entries)) + items
  {
    hide ItemsOf, StoredHash, StoresHashes, Factory.Valid;
    var i := 0;
    while i < |items|
      invariant 0 <= i <= |items| && f.Valid() && StoresHashes(f, sizes) && |f.entries| == |old(f.entries)| + i
      invariant f.entries[..|old(f.entries)|] == old(f.entries) && fresh(f.entries[|old(f.entries)|..])
      invariant ItemsOf(f.entries) == old(ItemsOf(f.entries)) + items[..i]
    {
      ghost var before := f.entries;
      AddOne(f, items[i], sizes);
      assert f.entries == before + [f.entries[|before|]];
      assert f.entries[|old(f.entries)|..] == before[|old(f.entries)|..] + [f.entries[|before|]];
      assert items[..i + 1] == items[..i] + [items[i]];
      i := i + 1;
    }
    assert items[..i] == items;
  }

  lemma {:induction false} NotReduced(h: nat, e: nat, sizes: seq<nat>)
    requires forall i :: 0 <= i < |sizes| ==> sizes[i] <= e
    ensures StoredHash(h, e, sizes) == h
  {
    if sizes != [] {
      NotReduced(h, e, sizes[..|sizes| - 1]);
    }
  }

  /** What the factory has just written. */
  ghost predicate Written(f: Factory, out: seq<byte>, magic: seq<byte>, slot: seq<int>, idx: seq<int>)
    requires |magic| >= 8
    reads f, f.entries
  {
    && f.Valid() && |out| == f.CalcSize() && Placed(Wanted(f.entries), slot, idx)
    && (forall e :: 0 <= e < |f.entries| ==> f.entries[e].hashvalue as nat == Wanted(f.entries)[e])
    && out == Image(magic[..8], RecsOf(ItemsOf(f.entries), Wanted(f.entries), slot, idx))
  }

  /** A batch is added, and all written. */
  method Round(f: Factory, items: seq<Item>, magic: seq<byte>, ghost sizes: seq<nat>)
    returns (out: seq<byte>, ghost slot: seq<int>, ghost idx: seq<int>)
    requires f.Valid() && StoresHashes(f, sizes) && |magic| >= 8
    requires forall i :: 0 <= i < |sizes| ==> sizes[i] <= |f.entries|
    modifies f, f.entries
    ensures f.Valid() && StoresHashes(f, sizes + [|f.entries|]) && Written(f, out, magic, slot, idx)
    ensures |f.entries| == |old(f.entries)| + |items|
    ensures f.entries[..|old(f.entries)|] == old(f.entries) && fresh(f.entries[|old(f.entries)|..])
    ensures ItemsOf(f.entries) == old(ItemsOf(f.entries)) + items
  {
    hide Image, Placed, RecsOf, ItemsOf, StoredHash, Factory.Valid, Factory.CalcSize;
    AddAll(f, items, sizes);
    assert f.entries == old(f.entries) + f.entries[|old(f.entries)|..];
    Reduction(f, sizes);
    var r := new byte[f.CalcSize()](_ => 0);
    slot, idx := f.Serialize(magic, r);
    out := r[..];
    assert r[..f.CalcSize()] == out;
  }

  /** What the next serialize makes of the stored hashes. */
  lemma Reduction(f: Factory, sizes: seq<nat>)
    requires StoresHashes(f, sizes)
    ensures forall e :: 0 <= e < |f.entries| ==>
      Wanted(f.entries)[e] == StoredHash(f.hashfunc(f.entries[e].key), e, sizes + [|f.entries|])
  {
    assert (sizes + [|f.entries|])[..|sizes|] == sizes;
  }

  lemma LastRound(f: Factory, out: seq<byte>, magic: seq<byte>, slot: seq<int>, idx: seq<int>, sizes: seq<nat>)
    requires |magic| >= 8 && Written(f, out, magic, slot, idx) && StoresHashes(f, sizes)
    requires f.entries != [] && sizes != [] && sizes[|sizes| - 1] == |f.entries|
    requires SizeFor(ItemsOf(f.entries)) < 0x1_0000_0000
    ensures var t := Table(ItemsOf(f.entries), Wanted(f.entries), slot, idx);
      t.StoredIn(out, magic[..8]) && HashedInRounds(t, f.hashfunc, sizes)
  {
    hide Image, Placed, StoredHash;
    KeysOfItems(f.entries);
  }

  lemma FreshlyMade(f: Factory)
    requires f.entries == []
    ensures StoresHashes(f, Totals([])) && ItemsOf(f.entries) == Flat([])
  {
  }

  /** `out` is a table of those entries, written by the last of several serializes. */
  ghost predicate FileOf(out: seq<byte>, items: seq<Item>, hashfunc: seq<byte> -> u32, sizes: seq<nat>,
                         magic: seq<byte>) {
    exists t: Table :: t.items == items && t.StoredIn(out, magic) && HashedInRounds(t, hashfunc, sizes)
  }

  /** Entries added in batches to one factory, which is serialized after each; what the last
      serialize leaves. */
  method WriteInRounds(hashfunc: seq<byte> -> u32, batches: seq<seq<Item>>, magic: seq<byte>)
    returns (out: seq<byte>)
    requires Flat(batches) != [] && |magic| >= 8 && SizeFor(Flat(batches)) < 0x1_0000_0000
    ensures FileOf(out, Flat(batches), hashfunc, Totals(batches), magic[..8])
  {
    hide SizeFor, Image, Placed, RecsOf, Factory.CalcSize, Factory.Valid, ItemsOf, StoresHashes, Written;
    var f := new Factory(hashfunc);
    var i := 0;
    ghost var slot: seq<int>, idx: seq<int> := [], [];
    out := [];
    FreshlyMade(f);
    while i < |batches|
      invariant 0 <= i <= |batches| && fresh(f) && fresh(f.entries) && f.Valid() && f.hashfunc == hashfunc
      invariant ItemsOf(f.entries) == Flat(batches[..i]) && StoresHashes(f, Totals(batches[..i]))
      invariant |f.entries| == |Flat(batches[..i])|
      invariant i > 0 ==> Written(f, out, magic, slot, idx)
    {
      assert batches[..i + 1][..i] == batches[..i];
      ghost var before := f.entries;
      out, slot, idx := Round(f, batches[i], magic, Totals(batches[..i]));
      assert f.entries == before + f.entries[|before|..];
      i := i + 1;
    }
    assert batches[..i] == batches;
    ghost var t := Table(Flat(batches), Wanted(f.entries), slot, idx);
    LastRound(f, out, magic, slot, idx, Totals(batches));
    assert t.items == Flat(batches) && t.StoredIn(out, magic[..8]) && HashedInRounds(t, hashfunc, Totals(batches));
  }

  method LookupFresh(out: seq<byte>, magic: seq<byte>, hashfunc: seq<byte> -> u32, key: seq<byte>, ghost t: Table)
    returns (r: LookupResult)
    requires |magic| >= 8 && t.StoredIn(out, magic[..8])
    ensures r == t.Outcome(Step(t, Fresh, hashfunc(key) % |t.items|, key).0)
  {
    hide Image, Placed, Step, Acceptable;
    WrittenOpens(t, out, magic);
    var db := Db.Open(out, magic, hashfunc);
    r := db.Lookup(key, null, t, magic[..8], Fresh);
  }

  /** One entry is added and all written, another is added and all written again: if the
      hash of the first is odd it is stored as an even one, and never found again. */
  method AddAfterSerializeLoses(hashfunc: seq<byte> -> u32, magic: seq<byte>, k: seq<byte>, other: seq<byte>,
                                data: seq<byte>)
    returns (found: LookupResult)
    requires |magic| >= 8 && k != other && |k| + |other| + 2 * |data| < 1000
    ensures found.NoEntry? <==> hashfunc(k) % 2 == 1
  {
    hide Image, Placed, Step, SizeFor, Flat, Totals, HashedInRounds, StoredHash;
    var items := [Item(k, data), Item(other, data)];
    TwoBatches(items[0], items[1]);
    SmallSize(items[0], items[1]);
    var out := WriteInRounds(hashfunc, [[items[0]], [items[1]]], magic);
    ghost var t: Table :|
      t.items == items && t.StoredIn(out, magic[..8]) && HashedInRounds(t, hashfunc, [1, 2]);
    found := LookupFresh(out, magic, hashfunc, k, t);
    FoundIfEven(t, hashfunc, k);
  }

  lemma FoundIfEven(t: Table, hashfunc: seq<byte> -> u32, k: seq<byte>)
    requires t.Valid() && HashedInRounds(t, hashfunc, [1, 2]) && |t.items| == 2 && t.items[0].key == k
    ensures var r := Step(t, Fresh, hashfunc(k) % 2, k).0;
      r == if hashfunc(k) % 2 == 0 then 0 else if t.items[1].key == k then 1 else -1
  {
    hide Placed, Step, HashedInRounds;
    FoundAfterAddIff(t, hashfunc, 1, k);
    assert Unharmed(t.items, hashfunc, 1, k, 0) <==> hashfunc(k) % 2 == 0;
    assert Unharmed(t.items, hashfunc, 1, k, 1) <==> t.items[1].key == k;
  }

  /** The same with one key twice: if its hash is odd, the later datum is the answer. */
  method LaterDatumAnswers(hashfunc: seq<byte> -> u32, magic: seq<byte>, k: seq<byte>, data: seq<byte>,
                           later: seq<byte>)
    returns (found: LookupResult)
    requires |magic| >= 8 && data != [] && later != [] && 2 * |k| + |data| + |later| < 1000
    ensures found == Found(if hashfunc(k) % 2 == 0 then data else later)
  {
    hide Image, Placed, Step, SizeFor, Flat, Totals, HashedInRounds, StoredHash, DataFrom;
    var items := [Item(k, data), Item(k, later)];
    TwoBatches(items[0], items[1]);
    SmallSize(items[0], items[1]);
    var out := WriteInRounds(hashfunc, [[items[0]], [items[1]]], magic);
    ghost var t: Table :|
      t.items == items && t.StoredIn(out, magic[..8]) && HashedInRounds(t, hashfunc, [1, 2]);
    found := LookupFresh(out, magic, hashfunc, k, t);
    FoundIfEven(t, hashfunc, k);
    NothingRefused(t, 0);
    NothingRefused(t, 1);
    ReadableIff(t, 0);
    ReadableIff(t, 1);
  }

  lemma TwoBatches(a: Item, b: Item)
    ensures Flat([[a], [b]]) == [a, b] && Totals([[a], [b]]) == [1, 2]
  {
    var batches := [[a], [b]];
    assert batches[..1] == [[a]] && [[a]][..0] == [];
    assert Flat([[a]]) == [a] && Totals([[a]]) == [1];
  }

  lemma SumOfTwo(x: nat, y: nat)
    ensures Sum([x, y]) == x + y
  {
    assert [x, y][..1] == [x] && [x][..0] == [];
    assert Sum([x]) == x;
  }

  lemma SmallSize(a: Item, b: Item)
    requires |a.key| + |b.key| + |a.data| + |b.data| < 1000
    ensures SizeFor([a, b]) < 0x1_0000_0000
  {
    var ks, ds := KeySizes([a, b]), DataSizes([a, b]);
    assert ks == [|a.key|, |b.key|] && ds == [CeilTo(|a.data|), CeilTo(|b.data|)];
    SumOfTwo(|a.key|, |b.key|);
    SumOfTwo(CeilTo(|a.data|), CeilTo(|b.data|));
    assert Sum(ks) == |a.key| + |b.key| && Sum(ds) == CeilTo(|a.data|) + CeilTo(|b.data|);
  }

  /** A single entry without a datum is in the file, and refused. */
  method EmptyDatumRefused(hashfunc: seq<byte> -> u32, magic: seq<byte>, k: seq<byte>) returns (found: LookupResult)
    requires |magic| >= 8 && |k| < 1000
    ensures found.BadFormat?
  {
    hide Image, Placed, Step, Matches;
    OneBatch(Item(k, []));
    var out := WriteInRounds(hashfunc, [[Item(k, [])]], magic);
    ghost var t: Table :|
      t.items == [Item(k, [])] && t.StoredIn(out, magic[..8]) && HashedInRounds(t, hashfunc, [1]);
    found := LookupFresh(out, magic, hashfunc, k, t);
    OneRound(t, hashfunc);
    LookupGivesFirst(t, hashfunc, k);
    NoDatum(t, k);
  }

  lemma OneBatch(a: Item)
    requires |a.key| + |a.data| < 1000
    ensures Flat([[a]]) == [a] && Totals([[a]]) == [1] && SizeFor([a]) < 0x1_0000_0000
  {
    assert [[a]][..0] == [];
    var ks, ds := KeySizes([a]), DataSizes([a]);
    assert ks[..0] == [] && ds[..0] == [];
    assert Sum(ks) == |a.key| && Sum(ds) == CeilTo(|a.data|);
  }

  lemma OneRound(t: Table, hashfunc: seq<byte> -> u32)
    requires HashedInRounds(t, hashfunc, [1])
    ensures t.HashedBy(hashfunc)
  {
    assert StoredHash(hashfunc(t.items[0].key), 0, [1]) < 1;
  }

  lemma NoDatum(t: Table, k: seq<byte>)
    requires t.Valid() && t.items == [Item(k, [])]
    ensures Matches(t.items, k, 0) == [0] && !DataFrom(t, 0)
  {
    assert Matches(t.items, k, 1) == [];
  }
}
