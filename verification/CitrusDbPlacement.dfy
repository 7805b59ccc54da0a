/** Where the database writer puts each entry: the first entry of every hash value
    takes the slot of that value, the others fill the free slots from the left. */
module CitrusDbPlacement {
  import opened Basics
  import opened CitrusDbFormat

  datatype Item = Item(key: seq<byte>, data: seq<byte>)

  predicate Reduced(hs: seq<nat>) {
    forall e :: 0 <= e < |hs| ==> hs[e] < |hs|
  }

  /** The first entry at or after `from` whose hash is `h`, or -1. */
  function NextWith(hs: seq<nat>, h: nat, from: nat): (r: int)
    requires from <= |hs|
    ensures r == -1 || from <= r < |hs|
    ensures r == -1 ==> forall j :: from <= j < |hs| ==> hs[j] != h
    ensures r != -1 ==> hs[r] == h && forall j :: from <= j < r ==> hs[j] != h
    decreases |hs| - from
  {
    if from == |hs| then -1
    else if hs[from] == h then from
    else NextWith(hs, h, from + 1)
  }

  /** The chain successor of entry `e`. */
  function Succ(hs: seq<nat>, e: nat): (r: int)
    requires e < |hs|
    ensures r == -1 || e < r < |hs|
  {
    NextWith(hs, hs[e], e + 1)
  }

  predicate IsHead(hs: seq<nat>, e: nat)
    requires e < |hs|
  {
    forall j :: 0 <= j < e ==> hs[j] != hs[e]
  }

  /** The first entry with the hash of `e`. */
  function HeadOf(hs: seq<nat>, e: nat): (d: nat)
    requires e < |hs|
    ensures d <= e && hs[d] == hs[e] && IsHead(hs, d)
    ensures !IsHead(hs, e) ==> d < e
  {
    NextWith(hs, hs[e], 0)
  }

  /** Chains do not merge. */
  lemma OneLinkInto(hs: seq<nat>, a: nat, b: nat)
    requires a < |hs| && b < |hs| && Succ(hs, a) == Succ(hs, b) != -1
    ensures a == b
  {
    assert hs[a] == hs[Succ(hs, a)] == hs[b];
  }

  lemma HeadEndsNoChain(hs: seq<nat>, k: nat)
    requires k < |hs| && IsHead(hs, k)
    ensures forall e :: 0 <= e < |hs| ==> Succ(hs, e) != k
  {
  }

  /** `slot` maps slots to entries and `idx` entries to slots, -1 standing for
      "none"; where both are set they are inverse to each other. */
  predicate Paired(slot: seq<int>, idx: seq<int>) {
    && |slot| == |idx|
    && (forall e :: 0 <= e < |idx| ==> idx[e] == -1 || (0 <= idx[e] < |slot| && slot[idx[e]] == e))
    && (forall s :: 0 <= s < |slot| ==> slot[s] == -1 || (0 <= slot[s] < |idx| && idx[slot[s]] == s))
  }

  lemma PairedStep(slot: seq<int>, idx: seq<int>, i: nat, k: nat)
    requires Paired(slot, idx) && i < |slot| && k < |idx| && slot[i] == -1 && idx[k] == -1
    ensures Paired(slot[i := k], idx[k := i])
  {
  }

  predicate Full(s: seq<int>) {
    forall i :: 0 <= i < |s| ==> s[i] != -1
  }

  /** The finished table. */
  predicate Placed(hs: seq<nat>, slot: seq<int>, idx: seq<int>) {
    && |slot| == |hs|
    && Reduced(hs) && Paired(slot, idx) && Full(slot) && Full(idx)
    && (forall e :: 0 <= e < |hs| && IsHead(hs, e) ==> idx[e] == hs[e])
    && (forall a, b :: 0 <= a < b < |hs| && !IsHead(hs, a) && !IsHead(hs, b) ==> idx[a] < idx[b])
  }

  /** After step 1 has seen the first `k` entries: exactly the heads among them
      have a slot, the one of their hash. */
  predicate OwnTaken(hs: seq<nat>, slot: seq<int>, idx: seq<int>, k: nat) {
    && |slot| == |hs| && k <= |hs| && Reduced(hs) && Paired(slot, idx)
    && (forall e :: 0 <= e < |hs| ==> idx[e] == if e < k && IsHead(hs, e) then hs[e] else -1)
    && (forall e :: 0 <= e < k ==> slot[hs[e]] != -1)
  }

  lemma OwnTakenStep(hs: seq<nat>, slot: seq<int>, idx: seq<int>, k: nat)
    requires OwnTaken(hs, slot, idx, k) && k < |hs|
    ensures slot[hs[k]] == -1 <==> IsHead(hs, k)
    ensures slot[hs[k]] == -1 ==> OwnTaken(hs, slot[hs[k] := k], idx[k := hs[k]], k + 1)
    ensures slot[hs[k]] != -1 ==> OwnTaken(hs, slot, idx, k + 1)
  {
    var e := slot[hs[k]];
    if e != -1 {
      assert idx[e] == hs[k] == hs[e];
    }
  }

  /** After step 2 has seen the first `k` entries, with the scan at slot `i`. */
  predicate Spilled(hs: seq<nat>, slot: seq<int>, idx: seq<int>, k: nat, i: nat) {
    && |slot| == |hs| && k <= |hs| && i <= |hs| && Reduced(hs) && Paired(slot, idx)
    && (forall e :: 0 <= e < |hs| && IsHead(hs, e) ==> idx[e] == hs[e])
    && (forall e :: 0 <= e < |hs| && !IsHead(hs, e) ==> (idx[e] != -1 <==> e < k))
    && (forall e :: 0 <= e < k && !IsHead(hs, e) ==> idx[e] <= i)
    && (forall a, b :: 0 <= a < b < k && !IsHead(hs, a) && !IsHead(hs, b) ==> idx[a] < idx[b])
    && (forall s :: 0 <= s < i ==> slot[s] != -1)
  }

  lemma SpilledStart(hs: seq<nat>, slot: seq<int>, idx: seq<int>)
    requires OwnTaken(hs, slot, idx, |hs|)
    ensures Spilled(hs, slot, idx, 0, 0)
  {
  }

  lemma SpilledEnd(hs: seq<nat>, slot: seq<int>, idx: seq<int>, i: nat)
    requires Spilled(hs, slot, idx, |hs|, i)
    ensures Placed(hs, slot, idx)
  {
    hide IsHead;
    AllEntriesPlacedMeansFull(slot, idx);
  }

  lemma SpilledStep(hs: seq<nat>, slot: seq<int>, idx: seq<int>, k: nat, i: nat, i': nat)
    requires Spilled(hs, slot, idx, k, i) && k < |hs| && idx[k] == -1
    requires i <= i' < |hs| && slot[i'] == -1 && forall s :: 0 <= s < i' ==> slot[s] != -1
    ensures Spilled(hs, slot[i' := k], idx[k := i'], k + 1, i')
  {
    hide IsHead;
    PairedStep(slot, idx, i', k);
    forall e | 0 <= e < k && !IsHead(hs, e)
      ensures idx[e] < i'
    {
      assert slot[idx[e]] == e;
    }
  }

  lemma SpilledSkip(hs: seq<nat>, slot: seq<int>, idx: seq<int>, k: nat, i: nat)
    requires Spilled(hs, slot, idx, k, i) && k < |hs| && idx[k] != -1
    ensures IsHead(hs, k) && Spilled(hs, slot, idx, k + 1, i)
  {
    hide IsHead;
  }

  // ----- pigeonhole --------------------------------------------------------

  function Below(n: nat): (s: set<int>)
    ensures forall x :: x in s <==> 0 <= x < n
    ensures |s| == n
  {
    if n == 0 then {} else Below(n - 1) + {n - 1}
  }

  lemma {:induction false} DistinctCardinality(q: seq<int>)
    requires forall i, j :: 0 <= i < j < |q| ==> q[i] != q[j]
    ensures |set x | x in q| == |q|
  {
    if |q| > 0 {
      var p := q[..|q| - 1];
      DistinctCardinality(p);
      assert (set x | x in q) == (set x | x in p) + {q[|q| - 1]};
    }
  }

  /** A full slot table leaves no entry out: the scan for a free slot therefore
      always stops inside the table while some entry is still waiting. */
  lemma NoSlotLeftMeansNoEntryLeft(slot: seq<int>, idx: seq<int>, e: nat)
    requires Paired(slot, idx) && Full(slot) && e < |idx|
    ensures idx[e] != -1
  {
    if idx[e] == -1 {
      DistinctCardinality(slot);
      var values := set x | x in slot;
      var n := |slot|;
      assert values <= Below(n) - {e as int};
      SubsetSize(values, Below(n) - {e as int});
    }
  }

  /** The other direction: once every entry has a slot, every slot has an entry. */
  lemma AllEntriesPlacedMeansFull(slot: seq<int>, idx: seq<int>)
    requires Paired(slot, idx) && Full(idx)
    ensures Full(slot)
  {
    forall s | 0 <= s < |slot|
      ensures slot[s] != -1
    {
      NoSlotLeftMeansNoEntryLeft(idx, slot, s);
    }
  }

  // ----- the placement is unique ------------------------------------------

  /** The specification of a placement pins it down completely. */
  lemma PlacementUnique(hs: seq<nat>, slot: seq<int>, idx: seq<int>, slot': seq<int>, idx': seq<int>)
    requires Placed(hs, slot, idx) && Placed(hs, slot', idx')
    ensures slot == slot' && idx == idx'
  {
    forall e | 0 <= e < |hs|
      ensures idx[e] == idx'[e]
    {
      SameSlot(hs, slot, idx, slot', idx', e);
    }
    assert idx == idx';
    forall s | 0 <= s < |hs|
      ensures slot[s] == slot'[s]
    {
      assert idx'[slot[s]] == s;
    }
  }

  lemma {:induction false} SameSlot(hs: seq<nat>, slot: seq<int>, idx: seq<int>, slot': seq<int>, idx': seq<int>,
                                    e: nat)
    requires Placed(hs, slot, idx) && Placed(hs, slot', idx') && e < |hs|
    ensures idx[e] == idx'[e]
    decreases e
  {
    if !IsHead(hs, e) {
      forall a | 0 <= a < e
        ensures idx[a] == idx'[a]
      {
        SameSlot(hs, slot, idx, slot', idx', a);
      }
      // Whatever sits in the other table's slot for e is not an earlier entry,
      // nor a head, so it comes no earlier than e does.
      SpillNotBefore(hs, slot, idx, slot', idx', e);
      SpillNotBefore(hs, slot', idx', slot, idx, e);
    }
  }

  lemma SpillNotBefore(hs: seq<nat>, slot: seq<int>, idx: seq<int>, slot': seq<int>, idx': seq<int>, e: nat)
    requires Placed(hs, slot, idx) && Placed(hs, slot', idx') && e < |hs| && !IsHead(hs, e)
    requires forall a :: 0 <= a < e ==> idx[a] == idx'[a]
    ensures idx[e] <= idx'[e]
  {
    var x := slot[idx'[e]];
    assert idx[x] == idx'[e];
    if x != e && (x < e || IsHead(hs, x)) {
      SlotClash(slot', idx', x, e);
    }
  }

  /** Two entries never share a slot. */
  lemma SlotClash(slot: seq<int>, idx: seq<int>, a: nat, b: nat)
    requires Paired(slot, idx) && a < |idx| && b < |idx| && idx[a] != -1 && a != b
    ensures idx[a] != idx[b]
  {
    assert slot[idx[a]] == a;
  }

  // ----- what the records say ---------------------------------------------

  /** The directory, in slot order. */
  function RecsOf(items: seq<Item>, hs: seq<nat>, slot: seq<int>, idx: seq<int>): (recs: seq<Rec>)
    requires |items| == |hs| && Placed(hs, slot, idx)
    ensures |recs| == |hs| && WellFormed(recs)
  {
    seq(|hs|, s requires 0 <= s < |hs| =>
      var e := slot[s];
      Rec(hs[e], if Succ(hs, e) == -1 then -1 else idx[Succ(hs, e)], items[e].key, items[e].data))
  }

  // ----- totals do not depend on the order ---------------------------------

  function Sum(f: seq<nat>): nat {
    if f == [] then 0 else Sum(f[..|f| - 1]) + f[|f| - 1]
  }

  /** The part of the sum of `f` that comes from the positions in `used`. */
  function PartSum(f: seq<nat>, used: set<int>): nat {
    if f == [] then 0
    else PartSum(f[..|f| - 1], used) + (if |f| - 1 in used then f[|f| - 1] else 0)
  }

  lemma {:induction false} PartSumAdd(f: seq<nat>, used: set<int>, e: nat)
    requires e !in used
    ensures PartSum(f, used + {e as int}) == PartSum(f, used) + (if e < |f| then f[e] else 0)
    decreases |f|
  {
    if f != [] {
      PartSumAdd(f[..|f| - 1], used, e);
    }
  }

  lemma {:induction false} PartSumAll(f: seq<nat>, used: set<int>)
    requires forall e :: 0 <= e < |f| ==> e in used
    ensures PartSum(f, used) == Sum(f)
    decreases |f|
  {
    if f != [] {
      PartSumAll(f[..|f| - 1], used);
    }
  }

  lemma {:induction false} PartSumNone(f: seq<nat>)
    ensures PartSum(f, {}) == 0
    decreases |f|
  {
    if f != [] {
      PartSumNone(f[..|f| - 1]);
    }
  }

  function Sizes(f: seq<nat>, slot: seq<int>, k: nat): (g: seq<nat>)
    requires k <= |slot| && forall s :: 0 <= s < |slot| ==> 0 <= slot[s] < |f|
    ensures |g| == k
  {
    seq(k, s requires 0 <= s < k => f[slot[s]])
  }

  /** The entries in the first `k` slots. */
  function Used(slot: seq<int>, k: nat): (u: set<int>)
    requires k <= |slot|
    ensures forall s :: 0 <= s < k ==> slot[s] in u
  {
    if k == 0 then {} else Used(slot, k - 1) + {slot[k - 1]}
  }

  lemma {:induction false} UsedFrom(slot: seq<int>, idx: seq<int>, k: nat, e: nat)
    requires Paired(slot, idx) && Full(slot) && k <= |slot| && e in Used(slot, k)
    ensures e < |idx| && 0 <= idx[e] < k
    decreases k
  {
    if k > 0 && e != slot[k - 1] {
      UsedFrom(slot, idx, k - 1, e);
    }
  }

  lemma {:induction false} SlotSumPrefix(f: seq<nat>, slot: seq<int>, idx: seq<int>, k: nat)
    requires Paired(slot, idx) && Full(slot) && |f| == |slot| && k <= |slot|
    ensures Sum(Sizes(f, slot, k)) == PartSum(f, Used(slot, k))
    decreases k
  {
    if k == 0 {
      PartSumNone(f);
    } else {
      SlotSumPrefix(f, slot, idx, k - 1);
      var e := slot[k - 1];
      if e in Used(slot, k - 1) {
        UsedFrom(slot, idx, k - 1, e);
      }
      PartSumAdd(f, Used(slot, k - 1), e);
      assert Sizes(f, slot, k)[..k - 1] == Sizes(f, slot, k - 1);
    }
  }

  lemma SlotSum(f: seq<nat>, slot: seq<int>, idx: seq<int>)
    requires Paired(slot, idx) && Full(slot) && Full(idx) && |f| == |slot|
    ensures Sum(Sizes(f, slot, |slot|)) == Sum(f)
  {
    var used := Used(slot, |slot|);
    SlotSumPrefix(f, slot, idx, |slot|);
    forall e: int | 0 <= e < |f|
      ensures e in used
    {
      assert slot[idx[e]] == e;
    }
    PartSumAll(f, used);
  }

  function KeySizes(items: seq<Item>): (f: seq<nat>)
    ensures |f| == |items|
  {
    seq(|items|, e requires 0 <= e < |items| => |items[e].key|)
  }

  function DataSizes(items: seq<Item>): (f: seq<nat>)
    ensures |f| == |items|
  {
    seq(|items|, e requires 0 <= e < |items| => CeilTo(|items[e].data|))
  }

  /** The totals kept while entries are added are the sizes of the key and data
      areas, whatever slots the entries end up in. */
  lemma AreaSizes(items: seq<Item>, hs: seq<nat>, slot: seq<int>, idx: seq<int>)
    requires |items| == |hs| && Placed(hs, slot, idx)
    ensures var recs := RecsOf(items, hs, slot, idx);
      && |KeyBytes(recs, |recs|)| == Sum(KeySizes(items))
      && |DataBytes(recs, |recs|)| == Sum(DataSizes(items))
  {
    var recs := RecsOf(items, hs, slot, idx);
    KeyAreaPrefix(items, hs, slot, idx, |recs|);
    DataAreaPrefix(items, hs, slot, idx, |recs|);
    SlotSum(KeySizes(items), slot, idx);
    SlotSum(DataSizes(items), slot, idx);
  }

  /** The size of a database of these entries. */
  function SizeFor(items: seq<Item>): nat {
    CeilTo(16) + CeilTo(24 * |items|) + CeilTo(Sum(KeySizes(items))) + Sum(DataSizes(items))
  }

  /** The size computed before anything is placed is the size of the image. */
  lemma SizeBeforePlacing(items: seq<Item>, hs: seq<nat>, slot: seq<int>, idx: seq<int>)
    requires |items| == |hs| && Placed(hs, slot, idx)
    ensures var recs := RecsOf(items, hs, slot, idx);
      && SizeFor(items) == ImageSize(recs)
      && DataStart(recs) == KeyStart(|items|) + CeilTo(Sum(KeySizes(items)))
  {
    AreaSizes(items, hs, slot, idx);
    var recs := RecsOf(items, hs, slot, idx);
    assert ImageSize(recs) == DataStart(recs) + |DataBytes(recs, |recs|)|;
    assert KeyStart(|items|) == CeilTo(16) + CeilTo(24 * |items|);
  }

  lemma {:induction false} KeyAreaPrefix(items: seq<Item>, hs: seq<nat>, slot: seq<int>, idx: seq<int>, k: nat)
    requires |items| == |hs| && Placed(hs, slot, idx) && k <= |hs|
    ensures |KeyBytes(RecsOf(items, hs, slot, idx), k)| == Sum(Sizes(KeySizes(items), slot, k))
    decreases k
  {
    if k > 0 {
      KeyAreaPrefix(items, hs, slot, idx, k - 1);
      assert Sizes(KeySizes(items), slot, k)[..k - 1] == Sizes(KeySizes(items), slot, k - 1);
    }
  }

  lemma {:induction false} DataAreaPrefix(items: seq<Item>, hs: seq<nat>, slot: seq<int>, idx: seq<int>, k: nat)
    requires |items| == |hs| && Placed(hs, slot, idx) && k <= |hs|
    ensures |DataBytes(RecsOf(items, hs, slot, idx), k)| == Sum(Sizes(DataSizes(items), slot, k))
    decreases k
  {
    if k > 0 {
      DataAreaPrefix(items, hs, slot, idx, k - 1);
      assert Sizes(DataSizes(items), slot, k)[..k - 1] == Sizes(DataSizes(items), slot, k - 1);
    }
  }
}
