/** The database writer: entries are queued, then placed and written out. */
module CitrusDbFactory {
  import opened Basics
  import opened CitrusBytes
  import opened CitrusDbFormat
  import opened CitrusDbPlacement

  class Entry {
    const key: seq<byte>
    const data: seq<byte>
    var hashvalue: u32
    var next: Entry?
    var idx: int

    constructor (key: seq<byte>, data: seq<byte>, hashvalue: u32)
      ensures this.key == key && this.data == data
      ensures this.hashvalue == hashvalue && next == null && idx == -1
    {
      this.key, this.data, this.hashvalue := key, data, hashvalue;
      next, idx := null, -1;
    }
  }

  // ----- writing into the output region -----------------------------------

  /** `s` with `b` written over it at `o`. */
  function Over(s: seq<byte>, o: nat, b: seq<byte>): (r: seq<byte>)
    requires o + |b| <= |s|
    ensures |r| == |s|
  {
    s[..o] + b + s[o + |b|..]
  }

  lemma OverApart(s: seq<byte>, o: nat, b: seq<byte>, lo: nat, hi: nat)
    requires o + |b| <= |s| && lo <= hi <= |s|
    requires hi <= o || o + |b| <= lo
    ensures Over(s, o, b)[lo..hi] == s[lo..hi]
  {
  }

  lemma OverExtends(s: seq<byte>, o: nat, b: seq<byte>, lo: nat)
    requires lo <= o && o + |b| <= |s|
    ensures Over(s, o, b)[lo..o + |b|] == s[lo..o] + b
  {
  }

  lemma OverOver(s: seq<byte>, o: nat, b: seq<byte>, c: seq<byte>)
    requires o + |b| + |c| <= |s|
    ensures Over(Over(s, o, b), o + |b|, c) == Over(s, o, b + c)
  {
    assert Over(Over(s, o, b), o + |b|, c) == s[..o] + b + c + s[o + |b| + |c|..];
  }

  lemma SixWords(s: seq<byte>, o: nat, a: seq<byte>, b: seq<byte>, c: seq<byte>, d: seq<byte>, e: seq<byte>,
                 f: seq<byte>)
    requires |a| == |b| == |c| == |d| == |e| == |f| == 4 && o + 24 <= |s|
    ensures Over(Over(Over(Over(Over(Over(s, o, a), o + 4, b), o + 8, c), o + 12, d), o + 16, e), o + 20, f)
      == Over(s, o, a + b + c + d + e + f)
  {
    OverOver(s, o, a, b);
    OverOver(s, o, a + b, c);
    OverOver(s, o, a + b + c, d);
    OverOver(s, o, a + b + c + d, e);
    OverOver(s, o, a + b + c + d + e, f);
  }

  method Put8(r: array<byte>, ofs: nat, val: byte) returns (ofs': nat)
    requires ofs < r.Length
    modifies r
    ensures ofs' == ofs + 1
    ensures r[..] == Over(old(r[..]), ofs, [val])
  {
    r[ofs] := val;
    ofs' := ofs + 1;
  }

  method PutBytes(r: array<byte>, ofs: nat, bytes: seq<byte>) returns (ofs': nat)
    requires ofs + |bytes| <= r.Length
    modifies r
    ensures ofs' == ofs + |bytes|
    ensures r[..] == Over(old(r[..]), ofs, bytes)
  {
    forall k | 0 <= k < |bytes| {
      r[ofs + k] := bytes[k];
    }
    ofs' := ofs + |bytes|;
  }

  method Put32(r: array<byte>, ofs: nat, val: nat) returns (ofs': nat)
    requires ofs + 4 <= r.Length
    modifies r
    ensures ofs' == ofs + 4
    ensures r[..] == Over(old(r[..]), ofs, Be32(val))
  {
    ofs' := PutBytes(r, ofs, Be32(val));
  }

  method PutPad(r: array<byte>, ofs: nat) returns (ofs': nat)
    requires CeilTo(ofs) <= r.Length
    modifies r
    ensures ofs' == CeilTo(ofs)
    ensures r[..] == Over(old(r[..]), ofs, Zeros(PadOf(ofs)))
  {
    ofs' := ofs;
    var i := CeilTo(ofs) - ofs;
    ghost var before := r[..];
    assert before == Over(before, ofs, Zeros(0));
    while i > 0
      invariant 0 <= i <= PadOf(ofs) && ofs' == CeilTo(ofs) - i
      invariant r[..] == Over(before, ofs, Zeros(PadOf(ofs) - i))
    {
      ghost var done := Zeros(PadOf(ofs) - i);
      ofs' := Put8(r, ofs', 0);
      OverOver(before, ofs, done, [0]);
      assert done + [0] == Zeros(PadOf(ofs) - (i - 1));
      i := i - 1;
    }
  }

  method DumpHeader(r: array<byte>, magic: seq<byte>, numEntries: nat) returns (ofs: nat)
    requires |magic| >= 8 && 16 <= r.Length
    modifies r
    ensures ofs == 16
    ensures r[..] == Over(old(r[..]), 0, Header(magic[..8], numEntries))
  {
    ofs := 0;
    ghost var before := r[..];
    assert before == Over(before, 0, magic[..0]);
    while ofs < 8
      invariant ofs <= 8
      invariant r[..] == Over(before, 0, magic[..ofs])
    {
      OverOver(before, 0, magic[..ofs], [magic[ofs]]);
      assert magic[..ofs] + [magic[ofs]] == magic[..ofs + 1];
      ofs := Put8(r, ofs, magic[ofs]);
    }
    ofs := Put32(r, ofs, numEntries);
    OverOver(before, 0, magic[..8], Be32(numEntries));
    ofs := Put32(r, ofs, 16);
    OverOver(before, 0, magic[..8] + Be32(numEntries), Be32(16));
  }

  method PutRecord(r: array<byte>, ofs: nat, hash: nat, next: nat, keyofs: nat, keylen: nat, dataofs: nat, datalen: nat)
    returns (ofs': nat)
    requires ofs + 24 <= r.Length
    modifies r
    ensures ofs' == ofs + 24
    ensures r[..] == Over(old(r[..]), ofs,
      Be32(hash) + Be32(next) + Be32(keyofs) + Be32(keylen) + Be32(dataofs) + Be32(datalen))
  {
    ghost var s := r[..];
    ofs' := Put32(r, ofs, hash);
    ofs' := Put32(r, ofs', next);
    ofs' := Put32(r, ofs', keyofs);
    ofs' := Put32(r, ofs', keylen);
    ofs' := Put32(r, ofs', dataofs);
    ofs' := Put32(r, ofs', datalen);
    SixWords(s, ofs, Be32(hash), Be32(next), Be32(keyofs), Be32(keylen), Be32(dataofs), Be32(datalen));
  }

  /** One turn of the dump loop: a record, a key and a padded datum, each
      appended to its own area. */
  method DumpEntry(r: array<byte>, ofs: nat, keyofs: nat, dataofs: nat, de: Entry, nextofs: nat)
    returns (ofs': nat, keyofs': nat, dataofs': nat)
    requires ofs + 24 <= keyofs && keyofs + |de.key| <= dataofs
    requires dataofs + CeilTo(|de.data|) <= r.Length && dataofs % 16 == 0
    modifies r
    ensures ofs' == ofs + 24 && keyofs' == keyofs + |de.key| && dataofs' == dataofs + CeilTo(|de.data|)
    ensures r[..] == Over(Over(Over(old(r[..]), ofs,
        Be32(de.hashvalue) + Be32(nextofs) + Be32(keyofs) + Be32(|de.key|) + Be32(dataofs) + Be32(|de.data|)),
      keyofs, de.key), dataofs, de.data + Zeros(PadOf(|de.data|)))
  {
    hide Over, Be32, CeilTo, Zeros;
    ofs' := PutRecord(r, ofs, de.hashvalue, nextofs, keyofs, |de.key|, dataofs, |de.data|);
    keyofs' := PutBytes(r, keyofs, de.key);
    ghost var t := r[..];
    dataofs' := PutBytes(r, dataofs, de.data);
    CeilToShift(dataofs, |de.data|);
    assert CeilTo(dataofs') == dataofs + CeilTo(|de.data|) && PadOf(dataofs') == PadOf(|de.data|);
    OverOver(t, dataofs, de.data, Zeros(PadOf(|de.data|)));
    dataofs' := PutPad(r, dataofs');
  }

  // ----- the factory -------------------------------------------------------

  ghost function ItemsOf(entries: seq<Entry>): (items: seq<Item>)
    ensures |items| == |entries|
  {
    seq(|entries|, e requires 0 <= e < |entries| => Item(entries[e].key, entries[e].data))
  }

  /** The slot each entry asks for: its stored hash modulo the number of entries. */
  ghost function Wanted(entries: seq<Entry>): (hs: seq<nat>)
    reads set e | e in entries
    ensures |hs| == |entries| && Reduced(hs)
  {
    seq(|entries|, e requires 0 <= e < |entries| reads set e | e in entries => entries[e].hashvalue % |entries|)
  }

  lemma WantedSettled(entries: seq<Entry>, hs: seq<nat>)
    requires |hs| == |entries| && Reduced(hs)
    requires forall e :: 0 <= e < |entries| ==> entries[e].hashvalue as nat == hs[e]
    ensures Wanted(entries) == hs
  {
  }

  ghost predicate PointersAt(entries: seq<Entry>, depp: seq<Entry?>, slot: seq<int>) {
    && |slot| == |depp| == |entries|
    && forall s :: 0 <= s < |depp| ==>
      depp[s] == if 0 <= slot[s] < |entries| then entries[slot[s]] else null
  }

  lemma PointersStep(entries: seq<Entry>, depp: seq<Entry?>, slot: seq<int>, i: nat, k: nat)
    requires PointersAt(entries, depp, slot) && i < |slot| && k < |entries|
    ensures PointersAt(entries, depp[i := entries[k]], slot[i := k])
  {
  }

  /** The abstract tables `slot` and `idx` describe the pointers in `depp` and
      the `idx` fields. */
  ghost predicate Mirrors(entries: seq<Entry>, depp: seq<Entry?>, slot: seq<int>, idx: seq<int>)
    reads set e | e in entries
  {
    && Paired(slot, idx) && PointersAt(entries, depp, slot)
    && forall e :: 0 <= e < |entries| ==> entries[e].idx == idx[e]
  }

  /** Chains built so far: entry `e` points to its successor if that one has been
      linked already, that is, if it lies below `k`. */
  ghost predicate Linked(entries: seq<Entry>, hs: seq<nat>, k: nat)
    requires |hs| == |entries|
    reads set e | e in entries
  {
    forall e :: 0 <= e < |entries| ==>
      entries[e].next == if Succ(hs, e) != -1 && Succ(hs, e) < k then entries[Succ(hs, e)] else null
  }

  /** Walk the chain that starts in the slot of `de`'s hash and hang `de`, which
      is entry `k`, on its end. */
  method AppendToChain(ghost entries: seq<Entry>, de: Entry, depp: array<Entry?>, ghost hs: seq<nat>, ghost k: nat,
                       ghost slot: seq<int>, ghost idx: seq<int>)
    requires Distinct(entries) && |hs| == |entries| && Reduced(hs) && k < |entries| && de == entries[k]
    requires de.hashvalue as nat == hs[k] && !IsHead(hs, k)
    requires Mirrors(entries, depp[..], slot, idx) && Linked(entries, hs, k)
    requires forall e :: 0 <= e < |entries| && IsHead(hs, e) ==> idx[e] == hs[e]
    modifies set e | e in entries
    ensures Linked(entries, hs, k + 1)
    ensures forall e :: 0 <= e < |entries| ==>
      entries[e].hashvalue == old(entries[e].hashvalue) && entries[e].idx == old(entries[e].idx)
  {
    ghost var d: nat := HeadOf(hs, k);
    assert slot[idx[d]] == d;
    var det := depp[de.hashvalue];
    while det.next != null
      invariant d < k && hs[d] == hs[k] && det == entries[d]
      decreases k - d
    {
      d := Succ(hs, d);
      det := det.next;
    }
    assert Succ(hs, d) == k;
    det.next := de;
    forall e | 0 <= e < |entries| && e != d
      ensures Succ(hs, e) != k
    {
      if Succ(hs, e) == k {
        OneLinkInto(hs, d, e);
      }
    }
  }

  /** Advance `i` to the next free slot; it exists because entry `k` has none. */
  method NextFree(ghost entries: seq<Entry>, depp: array<Entry?>, i: nat, ghost slot: seq<int>, ghost idx: seq<int>,
                  ghost k: nat)
    returns (i': nat)
    requires Mirrors(entries, depp[..], slot, idx) && k < |entries| && idx[k] == -1
    requires i <= |slot| && forall s :: 0 <= s < i ==> slot[s] != -1
    ensures i <= i' < |slot| && slot[i'] == -1
    ensures forall s :: 0 <= s < i' ==> slot[s] != -1
  {
    i' := i;
    if i' == depp.Length {
      NoSlotLeftMeansNoEntryLeft(slot, idx, k);
    }
    while depp[i'] != null
      invariant i <= i' < |slot|
      invariant forall s :: 0 <= s < i' ==> slot[s] != -1
      decreases |slot| - i'
    {
      if i' + 1 == |slot| {
        NoSlotLeftMeansNoEntryLeft(slot, idx, k);
      }
      i' := i' + 1;
    }
  }

  lemma ModBelow(x: nat, n: nat)
    requires n > 0
    ensures 0 <= x % n < n && x % n <= x
  {
    if x < n {
      assert x % n == x;
    }
  }

  /** Step 1: every entry that finds the slot of its own hash free takes it. */
  method TakeOwnSlots(entries: seq<Entry>, numEntries: nat, depp: array<Entry?>, ghost hs: seq<nat>)
    returns (ghost slot: seq<int>, ghost idx: seq<int>)
    requires Distinct(entries) && depp.Length == numEntries == |entries| && numEntries > 0
    requires hs == Wanted(entries)
    requires forall s :: 0 <= s < depp.Length ==> depp[s] == null
    modifies depp, entries
    ensures OwnTaken(hs, slot, idx, |hs|) && Mirrors(entries, depp[..], slot, idx) && Linked(entries, hs, 0)
    ensures forall e :: 0 <= e < |entries| ==> entries[e].hashvalue as nat == hs[e]
  {
    hide IsHead, Reduced;
    ghost var n := |entries|;
    slot := seq(n, _ => -1);
    idx := seq(n, _ => -1);
    var k := 0;
    while k < |entries|
      invariant 0 <= k <= n && OwnTaken(hs, slot, idx, k)
      invariant PointersAt(entries, depp[..], slot)
      invariant forall e :: 0 <= e < k ==>
        entries[e].hashvalue as nat == hs[e] && entries[e].next == null && entries[e].idx == idx[e]
      invariant forall e :: k <= e < n ==> entries[e].hashvalue % n == hs[e]
    {
      OwnTakenStep(hs, slot, idx, k);
      var de := entries[k];
      ModBelow(de.hashvalue, numEntries);
      de.hashvalue := de.hashvalue % numEntries;
      de.idx := -1;
      de.next := null;
      if depp[de.hashvalue] == null {
        depp[de.hashvalue] := de;
        de.idx := de.hashvalue;
        slot := slot[hs[k] := k];
        idx := idx[k := hs[k]];
      }
      k := k + 1;
    }
  }

  /** Link entry `k` to its chain and give it the next free slot at or after `i`. */
  method SpillOne(entries: seq<Entry>, de: Entry, depp: array<Entry?>, i: nat,
                  ghost hs: seq<nat>, ghost k: nat, ghost slot: seq<int>, ghost idx: seq<int>)
    returns (i': nat)
    requires Distinct(entries) && |hs| == |entries| && Reduced(hs) && k < |entries| && de == entries[k]
    requires depp.Length == |entries| && de.hashvalue as nat == hs[k]
    requires Mirrors(entries, depp[..], slot, idx) && Linked(entries, hs, k) && idx[k] == -1
    requires Spilled(hs, slot, idx, k, i)
    modifies depp, entries
    ensures i <= i' < |slot| && slot[i'] == -1 && forall s :: 0 <= s < i' ==> slot[s] != -1
    ensures Mirrors(entries, depp[..], slot[i' := k], idx[k := i']) && Linked(entries, hs, k + 1)
    ensures forall e :: 0 <= e < |entries| ==> entries[e].hashvalue == old(entries[e].hashvalue)
  {
    hide Succ, IsHead;
    AppendToChain(entries, de, depp, hs, k, slot, idx);
    i' := NextFree(entries, depp, i, slot, idx, k);
    PointersStep(entries, depp[..], slot, i', k);
    PairedStep(slot, idx, i', k);
    label linked:
    depp[i'] := de;
    de.idx := i';
    assert depp[..] == old@linked(depp[..])[i' := de];
    assert forall e :: 0 <= e < |entries| ==> entries[e].next == old@linked(entries[e].next);
    assert forall e :: 0 <= e < |entries| ==> entries[e].idx == idx[k := i' as int][e];
  }

  lemma LinkedSkip(entries: seq<Entry>, hs: seq<nat>, k: nat)
    requires |hs| == |entries| && k < |hs| && IsHead(hs, k) && Linked(entries, hs, k)
    ensures Linked(entries, hs, k + 1)
  {
    HeadEndsNoChain(hs, k);
  }

  /** Step 2: the remaining entries are linked to the end of their chain and take
      the free slots from the left. */
  method ResolveConflicts(entries: seq<Entry>, depp: array<Entry?>, ghost hs: seq<nat>, ghost slot0: seq<int>,
                          ghost idx0: seq<int>)
    returns (ghost slot: seq<int>, ghost idx: seq<int>)
    requires Distinct(entries) && depp.Length == |entries| == |hs|
    requires OwnTaken(hs, slot0, idx0, |hs|) && Mirrors(entries, depp[..], slot0, idx0) && Linked(entries, hs, 0)
    requires forall e :: 0 <= e < |entries| ==> entries[e].hashvalue as nat == hs[e]
    modifies depp, entries
    ensures Placed(hs, slot, idx) && Mirrors(entries, depp[..], slot, idx) && Linked(entries, hs, |entries|)
    ensures forall e :: 0 <= e < |entries| ==> entries[e].hashvalue as nat == hs[e]
  {
    hide Spilled, OwnTaken, Linked, IsHead, Placed;
    SpilledStart(hs, slot0, idx0);
    slot, idx := slot0, idx0;
    var i, k := 0, 0;
    while k < |entries|
      invariant 0 <= k <= |entries|
      invariant Spilled(hs, slot, idx, k, i)
      invariant Mirrors(entries, depp[..], slot, idx) && Linked(entries, hs, k)
      invariant forall e :: 0 <= e < |entries| ==> entries[e].hashvalue as nat == hs[e]
    {
      var de := entries[k];
      if de.idx == -1 {
        var i' := SpillOne(entries, de, depp, i, hs, k, slot, idx);
        SpilledStep(hs, slot, idx, k, i, i');
        i := i';
        slot, idx := slot[i := k], idx[k := i];
      } else {
        SpilledSkip(hs, slot, idx, k, i);
        LinkedSkip(entries, hs, k);
      }
      k := k + 1;
    }
    SpilledEnd(hs, slot, idx, i);
  }

  // ----- the dump ----------------------------------------------------------

  /** A region holding a header and three growing areas that start at 16, `k0`
      and `d0`. */
  ghost predicate Areas(s: seq<byte>, h: seq<byte>, dir: seq<byte>, k0: nat, keys: seq<byte>, d0: nat,
                        data: seq<byte>, end: nat) {
    && |h| == 16 && 16 + |dir| <= k0 && k0 + |keys| <= d0 && d0 + |data| <= end <= |s|
    && s[..16] == h
    && s[16..16 + |dir|] == dir
    && s[k0..k0 + |keys|] == keys
    && s[d0..d0 + |data|] == data
  }

  lemma AreasGrow(s: seq<byte>, s': seq<byte>, h: seq<byte>, dir: seq<byte>, k0: nat, keys: seq<byte>, d0: nat,
                  data: seq<byte>, end: nat,
                  a: seq<byte>, b: seq<byte>, c: seq<byte>)
    requires Areas(s, h, dir, k0, keys, d0, data, end)
    requires 16 + |dir| + |a| <= k0 && k0 + |keys| + |b| <= d0 && d0 + |data| + |c| <= end
    requires s' == Over(Over(Over(s, 16 + |dir|, a), k0 + |keys|, b), d0 + |data|, c)
    ensures Areas(s', h, dir + a, k0, keys + b, d0, data + c, end)
    ensures s'[end..] == s[end..]
  {
    hide Over;
    var s1 := Over(s, 16 + |dir|, a);
    var s2 := Over(s1, k0 + |keys|, b);
    OverExtends(s, 16 + |dir|, a, 16);
    OverExtends(s1, k0 + |keys|, b, k0);
    OverExtends(s2, d0 + |data|, c, d0);
    OverApart(s1, k0 + |keys|, b, 16, 16 + |dir| + |a|);
    OverApart(s2, d0 + |data|, c, 16, 16 + |dir| + |a|);
    OverApart(s, 16 + |dir|, a, k0, k0 + |keys|);
    OverApart(s2, d0 + |data|, c, k0, k0 + |keys| + |b|);
    OverApart(s, 16 + |dir|, a, d0, d0 + |data|);
    OverApart(s1, k0 + |keys|, b, d0, d0 + |data|);
    Untouched(s, s1, s2, s', 16 + |dir|, a, k0 + |keys|, b, d0 + |data|, c, 0, 16);
    Untouched(s, s1, s2, s', 16 + |dir|, a, k0 + |keys|, b, d0 + |data|, c, end, |s|);
  }

  lemma Untouched(s: seq<byte>, s1: seq<byte>, s2: seq<byte>, s3: seq<byte>, o: nat, a: seq<byte>, k: nat,
                  b: seq<byte>, d: nat, c: seq<byte>,
                  lo: nat, hi: nat)
    requires lo <= hi <= |s| && o + |a| <= k && k + |b| <= d && d + |c| <= |s| && (hi <= o || d + |c| <= lo)
    requires s1 == Over(s, o, a) && s2 == Over(s1, k, b) && s3 == Over(s2, d, c)
    ensures s3[lo..hi] == s[lo..hi]
  {
    hide Over;
    OverApart(s, o, a, lo, hi);
    OverApart(s1, k, b, lo, hi);
    OverApart(s2, d, c, lo, hi);
  }

  /** Filling the two gaps between the areas joins them. */
  lemma AreasJoin(s: seq<byte>, s': seq<byte>, h: seq<byte>, dir: seq<byte>, k0: nat, keys: seq<byte>, d0: nat,
                  data: seq<byte>, end: nat)
    requires Areas(s, h, dir, k0, keys, d0, data, end) && d0 + |data| == end
    requires s' == Over(Over(s, 16 + |dir|, Zeros(k0 - 16 - |dir|)), k0 + |keys|, Zeros(d0 - k0 - |keys|))
    ensures s'[..end] == h + dir + Zeros(k0 - 16 - |dir|) + keys + Zeros(d0 - k0 - |keys|) + data
    ensures s'[end..] == s[end..]
  {
    var o, k := 16 + |dir|, k0 + |keys|;
    var s1 := Over(s, o, Zeros(k0 - o));
    assert s'[..end] == s1[..k] + Zeros(d0 - k) + s1[d0..end];
    assert s1[..k] == s[..o] + Zeros(k0 - o) + s[k0..k];
    assert s1[d0..end] == s[d0..end];
    assert s[..o] == s[..16] + s[16..o];
  }

  lemma OffsetsInOrder(recs: seq<Rec>, i: nat)
    requires WellFormed(recs) && i <= |recs|
    ensures 16 + 24 * i <= KeyStart(|recs|) <= KeyOff(recs, i) <= DataStart(recs) <= DataOff(recs, i) <= ImageSize(recs)
    ensures |KeyBytes(recs, i)| == KeyOff(recs, i) - KeyStart(|recs|)
      && |DataBytes(recs, i)| == DataOff(recs, i) - DataStart(recs)
  {
    KeyBytesPrefix(recs, i, |recs|);
    DataBytesPrefix(recs, i, |recs|);
  }

  /** The region while the slots below `i` have been dumped. */
  ghost predicate Dumped(s: seq<byte>, magic: seq<byte>, recs: seq<Rec>, i: nat)
    requires |magic| == 8 && WellFormed(recs) && i <= |recs|
  {
    Areas(s, Header(magic, |recs|), DirBytes(recs, i), KeyStart(|recs|), KeyBytes(recs, i),
      DataStart(recs), DataBytes(recs, i), ImageSize(recs))
  }

  lemma DumpedNothing(s: seq<byte>, s': seq<byte>, magic: seq<byte>, recs: seq<Rec>)
    requires |magic| == 8 && WellFormed(recs) && 16 <= ImageSize(recs) <= |s|
    requires s' == Over(s, 0, Header(magic, |recs|))
    ensures Dumped(s', magic, recs, 0)
    ensures s'[ImageSize(recs)..] == s[ImageSize(recs)..]
  {
    hide Header, Image;
    OffsetsInOrder(recs, 0);
    OverExtends(s, 0, Header(magic, |recs|), 0);
    OverApart(s, 0, Header(magic, |recs|), ImageSize(recs), |s|);
  }

  lemma DumpedStep(s: seq<byte>, s': seq<byte>, magic: seq<byte>, recs: seq<Rec>, i: nat)
    requires |magic| == 8 && WellFormed(recs) && i < |recs| && Dumped(s, magic, recs, i)
    requires 16 + 24 * i + 24 <= |s| && KeyOff(recs, i) + |recs[i].key| <= |s|
      && DataOff(recs, i) + CeilTo(|recs[i].data|) <= |s|
    requires s' == Over(Over(Over(s, 16 + 24 * i, Record(recs, i)), KeyOff(recs, i), recs[i].key),
                        DataOff(recs, i), recs[i].data + Zeros(PadOf(|recs[i].data|)))
    ensures Dumped(s', magic, recs, i + 1)
    ensures s'[ImageSize(recs)..] == s[ImageSize(recs)..]
  {
    hide Over, Record, Header, Be32, Areas, CeilTo;
    OffsetsInOrder(recs, i);
    OffsetsInOrder(recs, i + 1);
    var pad := recs[i].data + Zeros(PadOf(|recs[i].data|));
    assert DataBytes(recs, i + 1) == DataBytes(recs, i) + pad;
    AreasGrow(s, s', Header(magic, |recs|), DirBytes(recs, i), KeyStart(|recs|), KeyBytes(recs, i),
      DataStart(recs), DataBytes(recs, i), ImageSize(recs), Record(recs, i), recs[i].key, pad);
  }

  lemma DumpedAll(s: seq<byte>, s': seq<byte>, magic: seq<byte>, recs: seq<Rec>)
    requires |magic| == 8 && WellFormed(recs) && Dumped(s, magic, recs, |recs|)
    requires var n := |recs|;
      && 16 + 24 * n <= KeyStart(n) <= |s| && KeyOff(recs, n) <= DataStart(recs) <= |s|
      && s' == Over(Over(s, 16 + 24 * n, Zeros(KeyStart(n) - 16 - 24 * n)), KeyOff(recs, n),
        Zeros(DataStart(recs) - KeyOff(recs, n)))
    ensures s'[..ImageSize(recs)] == Image(magic, recs)
    ensures s'[ImageSize(recs)..] == s[ImageSize(recs)..]
  {
    hide Over, Header, Be32, CeilTo, Zeros;
    var n := |recs|;
    PadsMeet(recs);
    OffsetsInOrder(recs, n);
    AreasJoin(s, s', Header(magic, n), DirBytes(recs, n), KeyStart(n), KeyBytes(recs, n),
      DataStart(recs), DataBytes(recs, n), ImageSize(recs));
  }

  /** An empty database is its header alone. */
  lemma EmptyImage(s: seq<byte>, s': seq<byte>, magic: seq<byte>, items: seq<Item>)
    requires |magic| == 8 && items == [] && 16 <= |s| && s' == Over(s, 0, Header(magic, 0))
    ensures CeilTo(16) + CeilTo(24 * 0) + CeilTo(Sum(KeySizes(items))) + Sum(DataSizes(items)) == 16
    ensures Placed([], [], []) && ImageSize(RecsOf(items, [], [], [])) == 16
    ensures s'[..16] == Image(magic, RecsOf(items, [], [], []))
    ensures s'[16..] == s[16..]
  {
    var recs := RecsOf(items, [], [], []);
    assert recs == [];
    SizeBeforePlacing(items, [], [], []);
    OverExtends(s, 0, Header(magic, 0), 0);
  }

  /** The pointers in `depp` lead to the records `recs`. */
  ghost predicate TableIs(depp: seq<Entry?>, recs: seq<Rec>)
    reads set de | de in depp, set de: Entry? | de in depp && de != null :: de.next
  {
    && |depp| == |recs| && WellFormed(recs)
    && forall i :: 0 <= i < |recs| ==>
      var de := depp[i];
      && de != null
      && de.hashvalue as nat == recs[i].hash && de.key == recs[i].key && de.data == recs[i].data
      && if recs[i].next == -1 then de.next == null
         else de.next != null && de.next.idx == recs[i].next
  }

  lemma TableOfPlacement(entries: seq<Entry>, depp: seq<Entry?>, hs: seq<nat>, slot: seq<int>, idx: seq<int>)
    requires |hs| == |entries| && Placed(hs, slot, idx)
    requires Mirrors(entries, depp, slot, idx) && Linked(entries, hs, |entries|)
    requires forall e :: 0 <= e < |entries| ==> entries[e].hashvalue as nat == hs[e]
    ensures TableIs(depp, RecsOf(ItemsOf(entries), hs, slot, idx))
  {
  }

  /** One turn of the dump loop. */
  method DumpSlot(r: array<byte>, ghost magic: seq<byte>, depp: array<Entry?>, ghost recs: seq<Rec>, i: nat, ofs: nat,
                  keyofs: nat, dataofs: nat)
    returns (ofs': nat, keyofs': nat, dataofs': nat)
    requires TableIs(depp[..], recs) && i < |recs| && |magic| == 8
    requires ofs == 16 + 24 * i && keyofs == KeyOff(recs, i) && dataofs == DataOff(recs, i)
    requires Dumped(r[..], magic, recs, i)
    modifies r
    ensures ofs' == 16 + 24 * (i + 1) && keyofs' == KeyOff(recs, i + 1) && dataofs' == DataOff(recs, i + 1)
    ensures Dumped(r[..], magic, recs, i + 1)
    ensures r[ImageSize(recs)..] == old(r[ImageSize(recs)..])
  {
    hide Over, Be32, CeilTo, Zeros, Header;
    OffsetsInOrder(recs, i);
    OffsetsInOrder(recs, i + 1);
    AreasAligned(recs, i);
    var de := depp[i];
    var nextofs := 0;
    if de.next != null {
      nextofs := 16 + de.next.idx * 24;
    }
    ghost var s := r[..];
    ofs', keyofs', dataofs' := DumpEntry(r, ofs, keyofs, dataofs, de, nextofs);
    DumpedStep(s, r[..], magic, recs, i);
  }

  method Dump(numEntries: nat, totalKeySize: nat, r: array<byte>, magic: seq<byte>, depp: array<Entry?>,
              ghost recs: seq<Rec>)
    requires |magic| >= 8 && depp.Length == numEntries > 0 && TableIs(depp[..], recs)
    requires DataStart(recs) == KeyStart(numEntries) + CeilTo(totalKeySize) && ImageSize(recs) <= r.Length
    modifies r
    ensures r[..ImageSize(recs)] == Image(magic[..8], recs)
    ensures r[ImageSize(recs)..] == old(r[ImageSize(recs)..])
  {
    hide Over, Be32, CeilTo, Header, Dumped, Zeros, Image, DirBytes, Record;
    ghost var m := magic[..8];
    var keyofs := 16 + CeilTo(24 * numEntries);
    var dataofs := keyofs + CeilTo(totalKeySize);
    OffsetsInOrder(recs, 0);
    ghost var s := r[..];
    var ofs := DumpHeader(r, magic, numEntries);
    DumpedNothing(s, r[..], m, recs);
    var i := 0;
    while i < numEntries
      invariant 0 <= i <= numEntries
      invariant ofs == 16 + 24 * i && keyofs == KeyOff(recs, i) && dataofs == DataOff(recs, i)
      invariant Dumped(r[..], m, recs, i)
      invariant r[ImageSize(recs)..] == old(r[ImageSize(recs)..])
    {
      ofs, keyofs, dataofs := DumpSlot(r, m, depp, recs, i, ofs, keyofs, dataofs);
      i := i + 1;
    }
    s := r[..];
    PadsMeet(recs);
    OffsetsInOrder(recs, i);
    ofs := PutPad(r, ofs);
    keyofs := PutPad(r, keyofs);
    DumpedAll(s, r[..], m, recs);
  }

  class Factory {
    var numEntries: nat
    var entries: seq<Entry>
    var totalKeySize: nat
    var totalDataSize: nat
    const hashfunc: seq<byte> -> u32

    ghost predicate Valid()
      reads this, entries
    {
      && Distinct(entries)
      && numEntries == |entries|
      && totalKeySize == Sum(KeySizes(ItemsOf(entries)))
      && totalDataSize == Sum(DataSizes(ItemsOf(entries)))
    }

    /** Every stored hash is the hash of its key, up to the reduction that
        serializing leaves behind. */
    ghost predicate HashesAgree()
      reads this, entries
    {
      forall e :: 0 <= e < |entries| ==>
        entries[e].hashvalue % |entries| == hashfunc(entries[e].key) % |entries|
    }

    /** No entry has been reduced yet. */
    ghost predicate Unreduced()
      reads this, entries
    {
      forall e :: 0 <= e < |entries| ==> entries[e].hashvalue == hashfunc(entries[e].key)
    }

    constructor (hashfunc: seq<byte> -> u32)
      ensures Valid() && Unreduced() && entries == [] && this.hashfunc == hashfunc
    {
      numEntries, entries, totalKeySize, totalDataSize := 0, [], 0, 0;
      this.hashfunc := hashfunc;
    }

    method Add(key: seq<byte>, data: seq<byte>)
      requires Valid()
      modifies this
      ensures Valid() && |entries| == |old(entries)| + 1 && fresh(entries[|old(entries)|])
      ensures entries[..|old(entries)|] == old(entries)
      ensures ItemsOf(entries) == old(ItemsOf(entries)) + [Item(key, data)]
      ensures entries[|old(entries)|].hashvalue == hashfunc(key)
      ensures old(Unreduced()) ==> Unreduced()
    {
      var de := new Entry(key, data, hashfunc(key));
      ghost var items := ItemsOf(entries);
      entries := entries + [de];
      assert ItemsOf(entries) == items + [Item(key, data)];
      assert KeySizes(ItemsOf(entries))[..|items|] == KeySizes(items);
      assert DataSizes(ItemsOf(entries))[..|items|] == DataSizes(items);
      totalKeySize := totalKeySize + |key|;
      totalDataSize := totalDataSize + CeilTo(|data|);
      numEntries := numEntries + 1;
    }

    function CalcSize(): (sz: nat)
      reads this
    {
      CeilTo(16) + CeilTo(24 * numEntries) + CeilTo(totalKeySize) + totalDataSize
    }


    /** Writes the database into `r`, which must offer `CalcSize()` bytes. */
    method Serialize(magic: seq<byte>, r: array<byte>) returns (ghost slot: seq<int>, ghost idx: seq<int>)
      requires Valid() && |magic| >= 8 && CalcSize() <= r.Length
      modifies r, entries
      ensures Valid() && ItemsOf(entries) == old(ItemsOf(entries)) && CalcSize() == old(CalcSize())
      ensures Wanted(entries) == old(Wanted(entries))
      ensures forall e :: 0 <= e < |entries| ==> entries[e].hashvalue as nat == Wanted(entries)[e]
      ensures Placed(Wanted(entries), slot, idx)
      ensures var recs := RecsOf(ItemsOf(entries), Wanted(entries), slot, idx);
        && ImageSize(recs) == CalcSize()
        && r[..CalcSize()] == Image(magic[..8], recs)
      ensures r[CalcSize()..] == old(r[CalcSize()..])
    {
      hide Over, Be32, Wanted, ItemsOf, RecsOf, Image, ImageSize, Placed, Sum, KeySizes, DataSizes, KeyStart,
        DataStart, CeilTo, Mirrors, Linked, OwnTaken, TableIs;
      ghost var hs, items := Wanted(entries), ItemsOf(entries);
      if numEntries == 0 {
        slot, idx := [], [];
        ghost var s := r[..];
        var ofs := DumpHeader(r, magic, 0);
        EmptyImage(s, r[..], magic[..8], items);
        return;
      }
      var depp := new Entry?[numEntries](_ => null);
      slot, idx := TakeOwnSlots(entries, numEntries, depp, hs);
      slot, idx := ResolveConflicts(entries, depp, hs, slot, idx);
      assert entries == old(entries) && totalKeySize == old(totalKeySize) && numEntries == old(numEntries);
      WantedSettled(entries, hs);
      ghost var recs := RecsOf(items, hs, slot, idx);
      SizeBeforePlacing(items, hs, slot, idx);
      TableOfPlacement(entries, depp[..], hs, slot, idx);
      Dump(numEntries, totalKeySize, r, magic, depp, recs);
    }
  }
}
