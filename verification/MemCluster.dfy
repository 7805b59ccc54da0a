/** Memory as blocks at addresses, and the links kept in blocks that are not in use. */
module MemBlocks {
  import opened Basics

  /** Rounds a size up to words of 8 bytes; sizes are of 64 bits. */
  function Quantize(size: nat): nat {
    if size % 8 != 0 then (size + 8 - size % 8) % 0x1_0000_0000_0000_0000 else size
  }

  /** The test of `memget` and that of `memput`. */
  predicate GetsLarge(size: nat, max: nat) {
    size >= max || Quantize(size) >= max
  }

  predicate PutsLarge(size: nat, max: nat) {
    size == max || Quantize(size) >= max
  }

  /** The two tests agree except where rounding up wraps around. */
  lemma TestsAgreeIff(size: nat, max: nat)
    requires 0 < max < 0x1_0000_0000_0000_0000 && size < 0x1_0000_0000_0000_0000
    ensures GetsLarge(size, max) == PutsLarge(size, max) <==> size <= 0xffff_ffff_ffff_fff8 || size <= max
    ensures size <= 0xffff_ffff_ffff_fff8 ==> size <= Quantize(size) < size + 8 && Quantize(size) % 8 == 0
  {
  }

  /** A size is rounded up to the least multiple of 8, unless that wraps; and a request is small
      exactly if a multiple of 8 below the limit has room for it. */
  lemma QuantizeIff(size: nat, max: nat, m: nat)
    requires size <= 0xffff_ffff_ffff_fff8
    ensures m == Quantize(size) <==> m % 8 == 0 && size <= m < size + 8
    ensures !GetsLarge(size, max) <==> exists n: nat :: n % 8 == 0 && size <= n < max
  {
    hide Quantize;
    Rounded8(size, m);
    Rounded8(size, Quantize(size));
    if n: nat :| n % 8 == 0 && size <= n < max {
      Rounded8(size, n);
    }
  }

  lemma Rounded8(size: nat, m: nat)
    requires size <= 0xffff_ffff_ffff_fff8
    ensures m == Quantize(size) <==> m % 8 == 0 && size <= m < size + 8
    ensures m % 8 == 0 && size <= m ==> Quantize(size) <= m
  {
  }

  /** A request that wraps around is taken for a small one when it is given back. */
  lemma WrappedMisjudged()
    ensures GetsLarge(0xffff_ffff_ffff_ffff, 1100) && !PutsLarge(0xffff_ffff_ffff_ffff, 1100)
  {
  }

  /** A block: free for a size class, a basic block not cut up yet, or in use by a caller
      who asked for `requested` bytes. */
  datatype Block = Free(size: nat) | Basic(size: nat) | Out(size: nat, requested: nat)

  type Layout = map<nat, Block>

  /** Blocks are aligned to words and do not overlap. */
  ghost predicate Laid(b: Layout) {
    && (forall a :: a in b ==> a > 0 && a % 8 == 0 && b[a].size > 0)
    && (forall a, c :: a in b && c in b && a < c ==> a + b[a].size <= c)
  }

  /** No block reaches into the area. */
  ghost predicate Vacant(b: Layout, at: nat, size: nat) {
    && at > 0 && at % 8 == 0
    && forall a :: a in b ==> a + b[a].size <= at || at + size <= a
  }

  lemma PlaceOne(b: Layout, at: nat, size: nat, x: Block)
    requires Laid(b) && Vacant(b, at, size) && 0 < x.size <= size
    ensures at !in b && Laid(b[at := x])
    ensures at % 8 == 0
    ensures x.size % 8 == 0 ==> Vacant(b[at := x], at + x.size, size - x.size)
  {
  }

  lemma RemoveOne(b: Layout, at: nat)
    requires Laid(b) && at in b
    ensures Laid(b - {at}) && Vacant(b - {at}, at, b[at].size)
  {
  }

  // ----- cutting up ------------------------------------------------------------------

  /** The addresses of `n` pieces of the same size. */
  function Pieces(first: nat, size: nat, n: nat): seq<nat>
    decreases n
  {
    if n == 0 then [] else [first] + Pieces(first + size, size, n - 1)
  }

  /** The pieces of size `k` from `first` on, as many as fit into the target, or all but the first
      of them. */
  ghost predicate CutFrom(s: seq<nat>, first: nat, k: nat, target: nat, given: nat) {
    && (|s| + given) * k <= target < (|s| + given + 1) * k
    && forall i :: 0 <= i < |s| ==> s[i] == first + (i + given) * k
  }

  /** How a request of class `k` is served: by the first free block of the class; without one, by
      the first piece of the first basic block; without one of these, by the first piece of the
      new area, which holds 64 of them. */
  ghost predicate Served(mem: nat, k: nat, area: nat, target: nat, free: seq<nat>, spare: seq<nat>, free': seq<nat>,
                         spare': seq<nat>)
  {
    if free != [] then mem == free[0] && free' == free[1..] && spare' == spare
    else
      && CutFrom(free', mem, k, target, 1)
      && if spare != [] then mem == spare[0] && spare' == spare[1..]
        else mem == area && |spare'| == 63 && forall i :: 0 <= i < 63 ==> spare'[i] == area + (i + 1) * target
  }

  function Carved(b: Layout, first: nat, n: nat, x: Block): Layout
    decreases n
  {
    if n == 0 then b else Carved(b[first := x], first + x.size, n - 1, x)
  }

  lemma {:induction false} PieceAt(first: nat, size: nat, n: nat)
    ensures |Pieces(first, size, n)| == n
    ensures forall i :: 0 <= i < n ==> Pieces(first, size, n)[i] == first + i * size
    decreases n
  {
    if n > 0 {
      PieceAt(first + size, size, n - 1);
      forall i | 0 <= i < n
        ensures Pieces(first, size, n)[i] == first + i * size
      {
        if i > 0 {
          assert (i - 1) * size + size == i * size;
        }
      }
    }
  }

  lemma {:induction false} PiecesAbove(first: nat, size: nat, n: nat)
    ensures forall a :: a in Pieces(first, size, n) ==> a >= first
    decreases n
  {
    if n > 0 {
      PiecesAbove(first + size, size, n - 1);
    }
  }

  lemma {:induction false} PiecesDistinct(first: nat, size: nat, n: nat)
    requires size > 0
    ensures Distinct(Pieces(first, size, n))
    decreases n
  {
    if n > 0 {
      var rest := Pieces(first + size, size, n - 1);
      PiecesDistinct(first + size, size, n - 1);
      PiecesAbove(first + size, size, n - 1);
      assert forall j :: 0 <= j < |rest| ==> rest[j] in rest && rest[j] != first;
    }
  }

  /** Pieces that fit into a vacant area are laid out in it, and nothing else changes. */
  lemma {:induction false} CarvedLaid(b: Layout, first: nat, room: nat, n: nat, x: Block)
    requires Laid(b) && Vacant(b, first, room) && n * x.size <= room && x.size > 0 && x.size % 8 == 0
    ensures Laid(Carved(b, first, n, x))
    ensures forall a :: a in Carved(b, first, n, x) <==> a in b || a in Pieces(first, x.size, n)
    ensures forall a :: a in Pieces(first, x.size, n) ==> a !in b && Carved(b, first, n, x)[a] == x
    ensures forall a :: a in b ==> Carved(b, first, n, x)[a] == b[a]
    decreases n
  {
    hide Laid, Vacant;
    if n > 0 {
      var b1, rest := b[first := x], Pieces(first + x.size, x.size, n - 1);
      Multiple(n, x.size);
      PlaceOne(b, first, room, x);
      CarvedLaid(b1, first + x.size, room - x.size, n - 1, x);
      PiecesAbove(first + x.size, x.size, n - 1);
      assert Pieces(first, x.size, n) == [first] + rest;
    }
  }

  lemma Multiple(n: nat, size: nat)
    requires n > 0
    ensures (n - 1) * size + size == n * size && (n - 1) * size >= 0
  {
  }

  // ----- linked lists ----------------------------------------------------------------

  /** Following the links from `from` passes through `s` and arrives at `to`. */
  ghost predicate Path(next: map<nat, nat>, from: nat, s: seq<nat>, to: nat)
    decreases |s|
  {
    if s == [] then from == to else from == s[0] && from in next && Path(next, next[from], s[1..], to)
  }

  lemma {:induction false} PathFrame(next: map<nat, nat>, next': map<nat, nat>, from: nat, s: seq<nat>, to: nat)
    requires Path(next, from, s, to)
    requires forall a :: a in s && a in next ==> a in next' && next'[a] == next[a]
    ensures Path(next', from, s, to)
    decreases |s|
  {
    if s != [] {
      PathFrame(next, next', next[from], s[1..], to);
    }
  }

  lemma {:induction false} PathExtend(next: map<nat, nat>, from: nat, s: seq<nat>, last: nat, to: nat)
    requires Path(next, from, s, last) && last !in s
    ensures Path(next[last := to], from, s + [last], to)
    decreases |s|
  {
    if s != [] {
      PathExtend(next, next[from], s[1..], last, to);
      assert (s + [last])[1..] == s[1..] + [last];
    } else {
      assert s + [last] == [last];
    }
  }

  lemma {:induction false} PathJoin(next: map<nat, nat>, from: nat, s: seq<nat>, mid: nat, t: seq<nat>, to: nat)
    requires Path(next, from, s, mid) && Path(next, mid, t, to)
    ensures Path(next, from, s + t, to)
    decreases |s|
  {
    if s == [] {
      assert s + t == t;
    } else {
      PathJoin(next, next[from], s[1..], mid, t, to);
      assert (s + t)[1..] == s[1..] + t;
    }
  }

  /** The list starting at `head` holds exactly the blocks of one kind, each once. */
  ghost predicate Listed(next: map<nat, nat>, head: nat, s: seq<nat>, b: Layout, x: Block) {
    && Path(next, head, s, 0) && Distinct(s)
    && (forall a :: a in s <==> a in b && b[a] == x)
  }

  lemma ListedFrame(next: map<nat, nat>, next': map<nat, nat>, head: nat, s: seq<nat>, b: Layout, b': Layout, x: Block)
    requires Listed(next, head, s, b, x)
    requires forall a :: (a in b && b[a] == x) <==> (a in b' && b'[a] == x)
    requires forall a :: a in b && b[a] == x && a in next ==> a in next' && next'[a] == next[a]
    ensures Listed(next', head, s, b', x)
  {
    PathFrame(next, next', head, s, 0);
  }

  lemma ListedPush(next: map<nat, nat>, head: nat, s: seq<nat>, b: Layout, x: Block, a: nat)
    requires Listed(next, head, s, b, x) && a !in s
    ensures Listed(next[a := head], a, [a] + s, b[a := x], x)
  {
    PathFrame(next, next[a := head], head, s, 0);
    assert ([a] + s)[1..] == s;
  }

  /** Taking the first block off; what becomes of it is not said. */
  lemma ListedPop(next: map<nat, nat>, head: nat, s: seq<nat>, b: Layout, b': Layout, x: Block)
    requires Listed(next, head, s, b, x) && s != []
    requires forall a :: (a in b' && b'[a] == x) <==> (a in b && b[a] == x && a != head)
    ensures head == s[0] && head in next && head in b && b[head] == x && Listed(next, next[head], s[1..], b', x)
  {
    assert forall i :: 1 <= i < |s| ==> s[0] != s[i];
    forall a
      ensures a in s[1..] <==> a in s && a != head
    {
      assert s == [s[0]] + s[1..];
    }
  }

  /** All the free lists, given where they begin. */
  ghost predicate AllListed(next: map<nat, nat>, heads: seq<nat>, lists: seq<seq<nat>>, b: Layout) {
    |heads| == |lists| && forall k :: 0 <= k < |lists| ==> Listed(next, heads[k], lists[k], b, Free(k))
  }

  /** What changes outside the free blocks of a class does not disturb its list. */
  lemma OthersKeep(next: map<nat, nat>, next': map<nat, nat>, heads: seq<nat>, lists: seq<seq<nat>>, b: Layout,
                   b': Layout, k0: int)
    requires AllListed(next, heads, lists, b)
    requires forall a :: a in b && b[a].Free? && b[a].size != k0 ==>
      a in b' && b'[a] == b[a] && (a in next ==> a in next' && next'[a] == next[a])
    requires forall a :: a in b' && b'[a].Free? && b'[a].size != k0 ==> a in b && b'[a] == b[a]
    ensures forall k :: 0 <= k < |lists| && k != k0 ==> Listed(next', heads[k], lists[k], b', Free(k))
  {
    hide Listed;
    forall k | 0 <= k < |lists| && k != k0
      ensures Listed(next', heads[k], lists[k], b', Free(k))
    {
      ListedFrame(next, next', heads[k], lists[k], b, b', Free(k));
    }
  }

  /** Pieces linked up in a vacant area, the last of them to a list of blocks of the same
      kind, make a longer list. */
  lemma ListedFill(next: map<nat, nat>, linked: map<nat, nat>, b: Layout, first: nat, room: nat, n: nat, x: Block,
                   last: nat, to: nat, s: seq<nat>)
    requires Laid(b) && Vacant(b, first, room) && 0 < n && n * x.size <= room && x.size > 0 && x.size % 8 == 0
    requires Path(linked, first, Pieces(first, x.size, n - 1), last)
      && Pieces(first, x.size, n) == Pieces(first, x.size, n - 1) + [last]
    requires forall a :: a !in Pieces(first, x.size, n) && a in next ==> a in linked && linked[a] == next[a]
    requires Listed(next, to, s, b, x)
    ensures Listed(linked[last := to], first, Pieces(first, x.size, n) + s, Carved(b, first, n, x), x)
    ensures forall a :: a in b && a in next ==> a in linked[last := to] && linked[last := to][a] == next[a]
  {
    hide Pieces, Laid, Vacant, Path;
    var p := Pieces(first, x.size, n);
    CarvedLaid(b, first, room, n, x);
    PiecesDistinct(first, x.size, n);
    LastIsNew(Pieces(first, x.size, n - 1), last);
    PathExtend(linked, first, Pieces(first, x.size, n - 1), last, to);
    PathFrame(next, linked[last := to], to, s, 0);
    PathJoin(linked[last := to], first, p, to, s, 0);
    JoinDistinct(p, s);
  }

  lemma LastIsNew(q: seq<nat>, last: nat)
    requires Distinct(q + [last])
    ensures last !in q
  {
    var p := q + [last];
    assert forall j :: 0 <= j < |q| ==> p[j] == q[j] && p[j] != p[|q|];
  }

  lemma JoinDistinct(p: seq<nat>, s: seq<nat>)
    requires Distinct(p) && Distinct(s) && forall a :: a in p ==> a !in s
    ensures Distinct(p + s)
  {
    assert forall i :: 0 <= i < |p| ==> p[i] in p;
    assert forall i :: 0 <= i < |s| ==> s[i] in s;
  }

  /** A head of zero is an empty list. */
  lemma ListedEmpty(next: map<nat, nat>, head: nat, s: seq<nat>, b: Layout, x: Block)
    requires Listed(next, head, s, b, x) && Laid(b)
    ensures head == 0 <==> s == []
  {
    if s != [] {
      assert s[0] in s;
    }
  }

  /** The blocks in use that are counted under `slot`: by the size asked for, the large
      ones together. */
  function Slot(requested: nat, max: nat): nat {
    if GetsLarge(requested, max) then max else requested
  }

  function Outstanding(b: Layout, max: nat, slot: nat): set<nat> {
    set a | a in b && b[a].Out? && Slot(b[a].requested, max) == slot
  }

  lemma OutstandingAdd(b: Layout, max: nat, slot: nat, a: nat, x: Block)
    requires a in b ==> !b[a].Out?
    ensures |Outstanding(b[a := x], max, slot)|
      == |Outstanding(b, max, slot)| + if x.Out? && Slot(x.requested, max) == slot then 1 else 0
  {
    if x.Out? && Slot(x.requested, max) == slot {
      assert Outstanding(b[a := x], max, slot) == Outstanding(b, max, slot) + {a};
    } else {
      assert Outstanding(b[a := x], max, slot) == Outstanding(b, max, slot);
    }
  }

  lemma OutstandingRemove(b: Layout, max: nat, slot: nat, a: nat)
    requires a in b && b[a].Out?
    ensures |Outstanding(b - {a}, max, slot)|
      == |Outstanding(b, max, slot)| - if Slot(b[a].requested, max) == slot then 1 else 0
  {
    if Slot(b[a].requested, max) == slot {
      assert Outstanding(b - {a}, max, slot) == Outstanding(b, max, slot) - {a};
    } else {
      assert Outstanding(b - {a}, max, slot) == Outstanding(b, max, slot);
    }
  }

  lemma OutstandingSame(b: Layout, b': Layout, max: nat, slot: nat)
    requires forall a :: (a in b && b[a].Out?) <==> (a in b' && b'[a].Out?)
    requires forall a :: a in b && b[a].Out? ==> b'[a] == b[a]
    ensures Outstanding(b', max, slot) == Outstanding(b, max, slot)
  {
  }

  /** The blocks in use are the same. */
  ghost predicate OutsKept(b: Layout, b': Layout) {
    && (forall a :: a in b && b[a].Out? ==> a in b' && b'[a] == b[a])
    && (forall a :: a in b' && b'[a].Out? ==> a in b && b[a] == b'[a])
  }

  /** Every size class is served by one basic block exactly when the largest class fits. */
  predicate Fits(max: nat, target: nat) {
    max > 0 && (max - 1) / 8 * 8 <= target
  }

  lemma FitsIff(max: nat, target: nat)
    requires 0 < max < 0x1_0000_0000_0000_0000
    ensures Fits(max, target) <==> forall size: nat :: size > 0 && !GetsLarge(size, max) ==> Quantize(size) <= target
  {
    hide Quantize, GetsLarge;
    var largest := (max - 1) / 8 * 8;
    LargestClass(max);
    forall size: nat | size > 0 && !GetsLarge(size, max)
      ensures Quantize(size) <= largest
    {
      QuantizedMultiple(size, max);
    }
  }

  /** With a target of 1024, a request for 1096 bytes would be cut from less. */
  lemma ClassTooLarge()
    ensures !GetsLarge(1096, 1100) && Quantize(1096) > 1024 && !Fits(1100, 1024)
  {
  }

  /** A class takes at least one piece off a basic block, even where the block has no room for
      it. With another block behind, the piece stays apart from that exactly if the class is no
      larger than the target. */
  lemma PieceApartIff(b: Layout, area: nat, target: nat, k: nat)
    requires Laid(b) && k > 0 && area in b && area + target in b && b[area] == b[area + target] == Basic(target)
    ensures Laid(b[area := Free(k)]) <==> k <= target
  {
    var b' := b[area := Free(k)];
    assert b'[area + target] == Basic(target);
    if k > target {
      assert area + b'[area].size > area + target;
    }
  }

  /** The limits 1100 and 1024: a block for 1096 bytes overlaps the basic block behind. */
  lemma ClassOverlaps(b: Layout, area: nat)
    requires Laid(b) && area in b && area + 1024 in b && b[area] == b[area + 1024] == Basic(1024)
    ensures !Laid(b[area := Free(Quantize(1096))])
  {
    PieceApartIff(b, area, 1024, Quantize(1096));
  }

  lemma LargestClass(max: nat)
    requires 0 < max < 0x1_0000_0000_0000_0000
    ensures var largest := (max - 1) / 8 * 8; largest > 0 ==> !GetsLarge(largest, max) && Quantize(largest) == largest
  {
  }

  lemma QuantizedMultiple(size: nat, max: nat)
    requires 0 < max && !GetsLarge(size, max)
    ensures Quantize(size) <= (max - 1) / 8 * 8
  {
  }

  /** The pieces of an aligned area are aligned exactly when their size is a multiple of
      the word size. */
  lemma AlignedIff(base: nat, target: nat)
    requires base % 8 == 0
    ensures (forall a :: a in Pieces(base, target, 64) ==> a % 8 == 0) <==> target % 8 == 0
  {
    hide Pieces;
    PieceAt(base, target, 64);
    var p := Pieces(base, target, 64);
    assert p[1] == base + 1 * target && p[1] in p;
    if target % 8 == 0 {
      forall i | 0 <= i < 64
        ensures p[i] % 8 == 0
      {
        MultipleAligned(base, i, target);
      }
    } else {
      Unaligned(base, target);
    }
  }

  /** A target of 12 leaves pieces off the words. */
  lemma TargetMisaligned()
    ensures exists a :: a in Pieces(16, 12, 64) && a % 8 != 0
  {
    hide Pieces;
    AlignedIff(16, 12);
  }

  lemma Unaligned(x: nat, y: nat)
    requires x % 8 == 0 && y % 8 != 0
    ensures (x + y) % 8 != 0
  {
  }

  lemma AddAligned(x: nat, y: nat)
    requires x % 8 == 0 && y % 8 == 0
    ensures (x + y) % 8 == 0
  {
  }

  lemma {:induction false} MultipleAligned(base: nat, i: nat, target: nat)
    requires base % 8 == 0 && target % 8 == 0
    ensures (base + i * target) % 8 == 0
    decreases i
  {
    if i > 0 {
      MultipleAligned(base, i - 1, target);
      Multiple(i, target);
      AddAligned(base + (i - 1) * target, target);
    }
  }
}

/** The allocator: free lists by size class, fed from basic blocks. */
module MemCluster {
  import opened MemBlocks

  datatype Stats = Stats(gets: nat, totalgets: nat, blocks: nat, freefrags: nat)

  /** The counts of free blocks by class and of blocks in use by slot. */
  ghost predicate Counted(st: seq<Stats>, lists: seq<seq<nat>>, b: Layout, max: nat) {
    && |st| == max + 1 && |lists| == max
    && (forall k :: 0 <= k < max ==> st[k].freefrags == |lists[k]|)
    && (forall k :: 0 <= k <= max ==> st[k].gets == |Outstanding(b, max, k)|)
  }

  /** One request more under `slot`, and `cut` basic blocks more for class `k`. */
  ghost predicate Tallied(st: seq<Stats>, st': seq<Stats>, slot: nat, k: nat, cut: nat) {
    && |st| == |st'|
    && (forall j :: 0 <= j < |st| ==> st'[j].totalgets == st[j].totalgets + if j == slot then 1 else 0)
    && (forall j :: 0 <= j < |st| ==> st'[j].blocks == st[j].blocks + if j == k then cut else 0)
  }

  class Cluster {
    var maxSize: nat
    var memTarget: nat
    var freelists: array?<nat>
    var basicBlocks: nat
    var stats: array?<Stats>
    /** The first word of blocks that are not in use. */
    var next: map<nat, nat>

    ghost var layout: Layout
    ghost var lists: seq<seq<nat>>
    ghost var basics: seq<nat>

    constructor ()
      ensures Valid() && freelists == null && stats == null
    {
      maxSize, memTarget, basicBlocks := 0, 0, 0;
      freelists, stats := null, null;
      next := map[];
      layout, lists, basics := map[], [], [];
    }

    /** The limits are such that a basic block serves every class, in whole words. */
    ghost predicate Sized()
      reads this`maxSize, this`memTarget
    {
      0 < maxSize < 0x1_0000_0000_0000_0000 && 0 < memTarget && Fits(maxSize, memTarget) && memTarget % 8 == 0
    }

    /** Every block is of a size that its kind can have, and blocks in use are at least as
        large as was asked for. */
    ghost predicate Sorted()
      reads this`maxSize, this`memTarget, this`layout
    {
      forall a :: a in layout ==> match layout[a]
        case Free(size) => 0 < size < maxSize && size % 8 == 0
        case Basic(size) => size == memTarget
        case Out(size, requested) => 0 < requested <= size && size == if GetsLarge(requested, maxSize) then requested
          else Quantize(requested)
    }

    ghost predicate ListsOk()
      reads this`freelists, freelists, this`next, this`layout, this`lists, this`basics, this`basicBlocks, this`memTarget
    {
      && freelists != null && |lists| == freelists.Length
      && Listed(next, basicBlocks, basics, layout, Basic(memTarget))
      && AllListed(next, freelists[..], lists, layout)
    }

    ghost predicate CountsOk()
      reads this`stats, stats, this`maxSize, this`layout, this`lists
    {
      stats != null && stats.Length == maxSize + 1 && |lists| == maxSize && Counted(stats[..], lists, layout, maxSize)
    }

    ghost predicate Valid()
      reads this, freelists, stats
    {
      if freelists == null then layout == map[]
      else Sized() && freelists.Length == maxSize && Laid(layout) && Sorted() && ListsOk() && CountsOk()
    }

    /** `meminit`. The invariant asks for limits under which a basic block serves every class,
        in whole words; others are accepted too. */
    method Init(initMaxSize: nat, targetSize: nat) returns (ok: bool)
      requires Valid() && initMaxSize < 0x1_0000_0000_0000_0000
      modifies this
      ensures freelists != null && ok == (old(freelists) == null)
      ensures Valid() <==> !ok || (Fits(maxSize, memTarget) && memTarget % 8 == 0)
      ensures !ok ==> unchanged(this)
      ensures ok ==>
        layout == map[] && maxSize == (if initMaxSize == 0 then 1100 else initMaxSize)
        && memTarget == if targetSize == 0 then 4096 else targetSize
      ensures ok ==> basics == [] && |lists| == maxSize && forall k :: 0 <= k < maxSize ==> lists[k] == []
      ensures ok ==> fresh(freelists) && fresh(stats) && stats.Length == maxSize + 1
      ensures ok ==> forall k :: 0 <= k <= maxSize ==> stats[k] == Stats(0, 0, 0, 0)
    {
      hide Listed, AllListed, Outstanding, Fits;
      if freelists != null {
        return false;
      }
      maxSize := if initMaxSize == 0 then 1100 else initMaxSize;
      memTarget := if targetSize == 0 then 4096 else targetSize;
      freelists := new nat[maxSize](_ => 0);
      stats := new Stats[maxSize + 1](_ => Stats(0, 0, 0, 0));
      basicBlocks := 0;
      lists := seq(maxSize, _ => []);
      basics := [];
      NothingListed(next, freelists[..], lists, Basic(memTarget));
      NothingOut(maxSize);
      ok := true;
    }

    /** Links `count` pieces, one after the other in memory; the last is left open. */
    method LinkUp(first: nat, size: nat, count: nat) returns (curr: nat)
      requires count > 0 && size > 0
      modifies this`next
      ensures curr == first + (count - 1) * size
      ensures Path(next, first, Pieces(first, size, count - 1), curr)
      ensures Pieces(first, size, count) == Pieces(first, size, count - 1) + [curr]
      ensures forall a :: a !in Pieces(first, size, count) && a in old(next) ==> a in next && next[a] == old(next)[a]
    {
      hide Path, Pieces;
      curr := first;
      var nxt := curr + size;
      var i := 0;
      LinkStart(next, first, size);
      while i < count - 1
        invariant 0 <= i <= count - 1 && curr == first + i * size && nxt == curr + size
        invariant Path(next, first, Pieces(first, size, i), curr)
        invariant Pieces(first, size, i + 1) == Pieces(first, size, i) + [curr]
        invariant forall a :: a !in Pieces(first, size, i) && a in old(next) ==> a in next && next[a] == old(next)[a]
      {
        LinkStep(next, first, size, i, curr);
        next := next[curr := nxt];
        curr := nxt;
        nxt := nxt + size;
        i := i + 1;
      }
    }

    /** Takes a new area from the system and makes basic blocks of it. */
    method NewBasics(area: nat)
      requires Sized() && Laid(layout) && Sorted() && ListsOk() && basics == [] && Vacant(layout, area, 64 * memTarget)
      modifies this`next, this`basicBlocks, this`layout, this`basics
      ensures Laid(layout) && Sorted() && ListsOk() && basics != []
      ensures OutsKept(old(layout), layout)
      ensures |basics| == 64 && forall i :: 0 <= i < 64 ==> basics[i] == area + i * memTarget
    {
      hide Listed, Laid, Vacant, Pieces, Carved, Path;
      ghost var before := next;
      ListedEmpty(next, basicBlocks, basics, layout, Basic(memTarget));
      var curr := LinkUp(area, memTarget, 64);
      ghost var x := Basic(memTarget);
      ListedFill(before, next, layout, area, 64 * memTarget, 64, x, curr, 0, []);
      CarvedLaid(layout, area, 64 * memTarget, 64, x);
      next := next[curr := 0];
      basicBlocks := area;
      OthersKeep(before, next, freelists[..], lists, layout, Carved(layout, area, 64, x), -1);
      layout := Carved(layout, area, 64, x);
      basics := Pieces(area, memTarget, 64) + [];
      PieceAt(area, memTarget, 64);
    }

    /** Cuts a basic block up into pieces of a class whose list is empty. */
    method Carve(k: nat)
      requires Sized() && freelists != null && freelists.Length == maxSize && Laid(layout) && Sorted() && ListsOk()
        && CountsOk()
      requires basics != [] && 0 < k < maxSize && k <= memTarget && k % 8 == 0 && lists[k] == []
      modifies this`next, this`basicBlocks, this`layout, this`basics, this`lists, freelists, stats
      ensures Laid(layout) && Sorted() && ListsOk() && CountsOk() && lists[k] != []
      ensures OutsKept(old(layout), layout)
      ensures CutFrom(lists[k], old(basics)[0], k, memTarget, 0)
      ensures basics == old(basics)[1..] && lists == old(lists)[k := lists[k]]
      ensures Tallied(old(stats[..]), stats[..], stats.Length, k, 1)
    {
      hide Listed, Laid, Vacant, Pieces, Carved, Path, Outstanding, AllListed, CutFrom, Counted, Tallied, Fits,
        GetsLarge, Quantize;
      var area := basicBlocks;
      ghost var b, n0, heads := layout, next, freelists[..];
      BasicOff(next, area, basics, layout, memTarget);
      var frags := memTarget / k;
      Divided(memTarget, k);
      stats[k] := stats[k].(blocks := stats[k].blocks + 1, freefrags := stats[k].freefrags + frags);
      basicBlocks := next[area];
      var curr := LinkUp(area, k, frags);
      CutUp(n0, next, b, area, basics, memTarget, heads, lists, k, frags, curr);
      next := next[curr := freelists[k]];
      freelists[k] := area;
      layout := Carved(b - {area}, area, frags, Free(k));
      CarvedSorted(b, area, frags, k);
      CountedCarve(old(stats[..]), old(lists), b, maxSize, k, Pieces(area, k, frags), layout);
      assert stats[..] == old(stats[..])[k := stats[k]];
      basics := basics[1..];
      lists := lists[k := Pieces(area, k, frags)];
      CutPieces(area, k, memTarget);
    }

    /** The first free block of a class goes to a caller. */
    method Take(k: nat, size: nat) returns (mem: nat)
      requires Valid() && freelists != null && 0 < k < maxSize && lists[k] != [] && 0 < size < maxSize
        && k == Quantize(size) && !GetsLarge(size, maxSize)
      requires size <= k && k % 8 == 0
      modifies this`layout, this`lists, freelists, stats
      ensures Valid() && mem in layout && layout[mem] == Out(k, size) && mem > 0 && mem % 8 == 0
      ensures mem in old(layout) && old(layout)[mem] == Free(k) && layout == old(layout)[mem := Out(k, size)]
      ensures mem == old(lists)[k][0] && lists == old(lists)[k := old(lists)[k][1..]]
      ensures Tallied(old(stats[..]), stats[..], size, k, 0)
    {
      hide Listed, AllListed, Outstanding, GetsLarge, Quantize, Counted, Tallied;
      mem := freelists[k];
      TakeOff(next, layout, freelists[..], lists, basicBlocks, basics, memTarget, k, Out(k, size));
      CountedTake(stats[..], lists, layout, maxSize, k, size, mem);
      freelists[k] := next[mem];
      stats[size] := stats[size].(gets := stats[size].gets + 1, totalgets := stats[size].totalgets + 1);
      stats[k] := stats[k].(freefrags := stats[k].freefrags - 1);
      assert stats[..] == old(stats[..])[size := stats[size]][k := stats[k]];
      layout := layout[mem := Out(k, size)];
      lists := lists[k := lists[k][1..]];
    }

    /** A request beyond the limit goes to the system. */
    method TakeLarge(size: nat, area: nat) returns (mem: nat)
      requires Valid() && freelists != null && 0 < size && GetsLarge(size, maxSize) && Vacant(layout, area, size)
      modifies this`layout, stats
      ensures Valid() && mem == area && mem !in old(layout) && layout == old(layout)[mem := Out(size, size)]
      ensures mem > 0 && mem % 8 == 0
      ensures Tallied(old(stats[..]), stats[..], maxSize, 0, 0)
    {
      hide Listed, AllListed, Outstanding, GetsLarge, Laid, Counted, Tallied;
      var x := Out(size, size);
      stats[maxSize] := stats[maxSize].(gets := stats[maxSize].gets + 1, totalgets := stats[maxSize].totalgets + 1);
      PlaceOne(layout, area, size, x);
      CountedLarge(old(stats[..]), lists, layout, maxSize, area, size);
      assert stats[..] == old(stats[..])[maxSize := stats[maxSize]];
      ListsUntouched(next, layout, layout[area := x], freelists[..], lists, basicBlocks, basics, memTarget);
      layout := layout[area := x];
      mem := area;
    }

    /** What a request makes the allocator ask of the system, if anything. */
    ghost function Asked(size: nat): nat
      reads this
    {
      var max, target := if freelists == null then 1100 else maxSize, if freelists == null then 4096 else memTarget;
      if size == 0 then 0
      else if GetsLarge(size, max) then size
      else if freelists == null || (Quantize(size) < |lists| && lists[Quantize(size)] == [] && basics == [])
        then 64 * target
      else 0
    }

    /** `memget`; the system's allocator, if it is asked, answers with `area`. */
    method Get(size: nat, area: nat) returns (mem: nat)
      requires Valid() && size <= 0xffff_ffff_ffff_fff8
      requires Asked(size) > 0 ==> Vacant(layout, area, Asked(size))
      modifies this, freelists, stats
      ensures Valid() && freelists != null && (old(freelists) != null ==>
        freelists == old(freelists) && stats == old(stats) && maxSize == old(maxSize) && memTarget == old(memTarget))
      ensures old(freelists) == null ==> maxSize == 1100 && memTarget == 4096 && fresh(freelists) && fresh(stats)
      ensures size == 0 ==> mem == 0 && layout == old(layout)
      ensures size > 0 ==>
        mem > 0 && mem % 8 == 0 && mem in layout && layout[mem].Out? && layout[mem].requested == size
        && layout[mem].size >= size
      ensures size > 0 ==>
        (mem in old(layout) ==> !old(layout)[mem].Out?) && OutsKept(old(layout)[mem := layout[mem]], layout)
      ensures size > 0 && GetsLarge(size, maxSize) ==>
        mem == area && layout[mem].size == size && (old(freelists) != null ==>
          lists == old(lists) && basics == old(basics) && Tallied(old(stats[..]), stats[..], maxSize, 0, 0))
      ensures size > 0 && !GetsLarge(size, maxSize) && old(freelists) != null ==>
        var k := Quantize(size);
        && layout[mem].size == k && lists == old(lists)[k := lists[k]]
        && Served(mem, k, area, memTarget, old(lists)[k], old(basics), lists[k], basics)
        && Tallied(old(stats[..]), stats[..], size, k, if old(lists)[k] == [] then 1 else 0)
      ensures size > 0 && !GetsLarge(size, maxSize) && old(freelists) == null ==>
        var k := Quantize(size);
        && layout[mem].size == k
        && Served(mem, k, area, 4096, [], [], lists[k], basics)
        && (forall j :: 0 <= j < 1100 && j != k ==> lists[j] == [])
        && forall j :: 0 <= j <= 1100 ==>
          stats[j].totalgets == (if j == size then 1 else 0) && stats[j].blocks == if j == k then 1 else 0
    {
      hide Listed, AllListed, Outstanding, Laid, Sorted, ListsOk;
      if freelists == null {
        var _ := Init(0, 0);
      }
      if size == 0 {
        return 0;
      }
      var newSize := Quantize(size);
      if size >= maxSize || newSize >= maxSize {
        mem := TakeLarge(size, area);
        return;
      }
      Rounded(size, maxSize, memTarget);
      mem := GetSmall(size, newSize, area);
    }

    method GetSmall(size: nat, newSize: nat, area: nat) returns (mem: nat)
      requires Valid() && freelists != null && 0 < size <= newSize < maxSize && newSize == Quantize(size)
        && newSize <= memTarget && newSize % 8 == 0
      requires !GetsLarge(size, maxSize)
      requires lists[newSize] == [] && basics == [] ==> Vacant(layout, area, 64 * memTarget)
      modifies this`next, this`basicBlocks, this`layout, this`basics, this`lists, freelists, stats
      ensures Valid() && mem > 0 && mem % 8 == 0 && mem in layout && layout[mem] == Out(newSize, size)
      ensures Served(mem, newSize, area, memTarget, old(lists)[newSize], old(basics), lists[newSize], basics)
      ensures lists == old(lists)[newSize := lists[newSize]]
      ensures Tallied(old(stats[..]), stats[..], size, newSize, if old(lists)[newSize] == [] then 1 else 0)
      ensures (mem in old(layout) ==> !old(layout)[mem].Out?) && OutsKept(old(layout)[mem := layout[mem]], layout)
    {
      hide Listed, Outstanding, Laid, Sorted, Vacant, GetsLarge, Quantize, CutFrom, Counted, Fits;
      ListEnds(next, freelists[newSize], lists[newSize], layout, Free(newSize));
      if freelists[newSize] == 0 {
        ListEnds(next, basicBlocks, basics, layout, Basic(memTarget));
        if basicBlocks == 0 {
          NewBasics(area);
          CountedSame(stats[..], lists, old(layout), layout, maxSize);
        }
        ghost var first := basics[0];
        Carve(newSize);
        CutRest(lists[newSize], first, newSize, memTarget);
      }
      mem := Take(newSize, size);
    }

    /** `memput`, for what `memget` gave. */
    method Put(mem: nat, size: nat)
      requires Valid() && freelists != null && size <= 0xffff_ffff_ffff_fff8
      requires size > 0 ==> mem in layout && layout[mem].Out? && layout[mem].requested == size
      modifies this`next, this`layout, this`lists, freelists, stats
      ensures Valid()
      ensures size == 0 ==> layout == old(layout) && stats[..] == old(stats[..])
      ensures size > 0 ==> OutsKept(old(layout) - {mem}, layout)
      ensures lists == if size == 0 || GetsLarge(size, maxSize) then old(lists) else
        old(lists)[Quantize(size) := [mem] + old(lists)[Quantize(size)]]
      ensures Tallied(old(stats[..]), stats[..], stats.Length, 0, 0)
    {
      hide Listed, Outstanding, Laid, AllListed;
      if size == 0 {
        return;
      }
      var newSize := Quantize(size);
      Rounded(size, maxSize, memTarget);
      TestsAgreeIff(size, maxSize);
      var x := layout[mem];
      if size == maxSize || newSize >= maxSize {
        GiveLargeBack(mem, size);
        return;
      }
      GiveBack(mem, size, newSize);
    }

    /** A large block goes back to the system. */
    method GiveLargeBack(mem: nat, size: nat)
      requires Valid() && freelists != null && size > 0 && GetsLarge(size, maxSize)
      requires mem in layout && layout[mem].Out? && layout[mem].requested == size
      modifies this`layout, stats
      ensures Valid() && OutsKept(old(layout) - {mem}, layout)
      ensures Tallied(old(stats[..]), stats[..], stats.Length, 0, 0)
    {
      hide Listed, Outstanding, Laid, AllListed, GetsLarge, Quantize, Counted, Tallied;
      CountedLargeBack(stats[..], lists, layout, maxSize, mem);
      ListsUntouched(next, layout, layout - {mem}, freelists[..], lists, basicBlocks, basics, memTarget);
      RemoveOne(layout, mem);
      layout := layout - {mem};
      assert stats[maxSize].gets != 0;
      stats[maxSize] := stats[maxSize].(gets := stats[maxSize].gets - 1);
      assert stats[..] == old(stats[..])[maxSize := stats[maxSize]];
    }

    method GiveBack(mem: nat, size: nat, newSize: nat)
      requires Valid() && freelists != null && 0 < size <= newSize < maxSize && newSize % 8 == 0
        && newSize == Quantize(size)
      requires mem in layout && layout[mem] == Out(newSize, size)
      modifies this`next, this`layout, this`lists, freelists, stats
      ensures Valid() && OutsKept(old(layout) - {mem}, layout)
      ensures lists == old(lists)[newSize := [mem] + old(lists)[newSize]]
        && Tallied(old(stats[..]), stats[..], stats.Length, 0, 0)
    {
      hide Listed, Outstanding, Laid, AllListed, Fits, Quantize, GetsLarge, Slot, Counted, Tallied;
      SmallSlot(size, maxSize);
      CountedGive(stats[..], lists, layout, maxSize, newSize, size, mem);
      PutOn(next, layout, freelists[..], lists, basicBlocks, basics, memTarget, newSize, mem);
      next := next[mem := freelists[newSize]];
      freelists[newSize] := mem;
      layout := layout[mem := Free(newSize)];
      lists := lists[newSize := [mem] + lists[newSize]];
      assert stats[size].gets != 0;
      stats[size] := stats[size].(gets := stats[size].gets - 1);
      stats[newSize] := stats[newSize].(freefrags := stats[newSize].freefrags + 1);
      assert stats[..] == old(stats[..])[size := stats[size]][newSize := stats[newSize]];
    }

    /** A caller who writes a word inside its own block disturbs nothing, even where the
        allocator kept a link before. */
    method Write(mem: nat, offset: nat, value: nat)
      requires Valid() && mem in layout && layout[mem].Out? && offset + 8 <= layout[mem].size
      modifies this`next
      ensures Valid() && layout == old(layout) && next == old(next)[mem + offset := value]
    {
      hide Listed, Outstanding, AllListed;
      if freelists != null {
        WordApart(layout, mem, offset);
        LinksApart(next, next[mem + offset := value], layout, freelists[..], lists, basicBlocks, basics, memTarget,
          mem + offset);
      }
      next := next[mem + offset := value];
    }

    /** `memactive`: whether anything is in use. */
    method Active() returns (r: bool)
      requires Valid()
      ensures r <==> exists a :: a in layout && layout[a].Out?
    {
      hide Listed, AllListed, Laid;
      if stats == null || freelists == null {
        return false;
      }
      var i := 1;
      while i <= maxSize
        invariant 1 <= i <= maxSize + 1
        invariant forall k :: 1 <= k < i ==> Outstanding(layout, maxSize, k) == {}
      {
        if stats[i].gets != 0 {
          ghost var a :| a in Outstanding(layout, maxSize, i);
          return true;
        }
        i := i + 1;
      }
      OutCounted(layout, maxSize);
      r := false;
    }
  }

  lemma CutIntoMore(s: seq<nat>, area: nat)
    ensures CutFrom(s, area, 16, 4096, 1) ==> |s| == 255 && s[0] == area + 16
  {
  }

  /** Requests of a new allocator: the first two of the 256 pieces of the first basic block, and
      the first of them once more when it has been given back. */
  method Requests(area: nat) returns (a: nat, b: nat, again: nat, blocks: nat, freefrags: nat)
    requires area > 0 && area % 8 == 0
    ensures a == area && b == area + 16 && again == area && blocks == 1 && freefrags == 254
  {
    hide Laid, Listed, AllListed, Outstanding, CutFrom;
    var c := new Cluster();
    a := c.Get(16, area);
    CutIntoMore(c.lists[16], area);
    b := c.Get(16, area);
    c.Put(a, 16);
    again := c.Get(16, area);
    blocks, freefrags := c.stats[16].blocks, c.stats[16].freefrags;
  }

  lemma NothingListed(next: map<nat, nat>, heads: seq<nat>, lists: seq<seq<nat>>, x: Block)
    requires |heads| == |lists| && (forall k :: 0 <= k < |heads| ==> heads[k] == 0)
      && forall k :: 0 <= k < |lists| ==> lists[k] == []
    ensures Listed(next, 0, [], map[], x) && AllListed(next, heads, lists, map[])
  {
  }

  lemma SmallSlot(size: nat, max: nat)
    requires size <= Quantize(size) < max
    ensures !GetsLarge(size, max) && Slot(size, max) == size
  {
  }

  lemma NothingOut(max: nat)
    ensures forall slot: nat :: Outstanding(map[], max, slot) == {}
  {
  }

  /** The counts when a block goes to a caller. */
  lemma CountAdded(b: Layout, max: nat, a: nat, x: Block)
    requires x.Out? && (a in b ==> !b[a].Out?)
    ensures forall slot: nat ::
      |Outstanding(b[a := x], max, slot)| == |Outstanding(b, max, slot)| + if slot == Slot(x.requested, max) then 1
      else 0
  {
    forall slot: nat
      ensures |Outstanding(b[a := x], max, slot)|
        == |Outstanding(b, max, slot)| + if slot == Slot(x.requested, max) then 1 else 0
    {
      OutstandingAdd(b, max, slot, a, x);
    }
  }

  lemma CountRemoved(b: Layout, max: nat, a: nat, b': Layout)
    requires a in b && b[a].Out? && OutsKept(b - {a}, b')
    ensures forall slot: nat ::
      |Outstanding(b', max, slot)| == |Outstanding(b, max, slot)| - if slot == Slot(b[a].requested, max) then 1 else 0
  {
    forall slot: nat
      ensures |Outstanding(b', max, slot)|
        == |Outstanding(b, max, slot)| - if slot == Slot(b[a].requested, max) then 1 else 0
    {
      OutstandingRemove(b, max, slot, a);
      OutstandingSame(b - {a}, b', max, slot);
    }
  }

  lemma CountedSame(st: seq<Stats>, lists: seq<seq<nat>>, b: Layout, b': Layout, max: nat)
    requires Counted(st, lists, b, max) && OutsKept(b, b')
    ensures Counted(st, lists, b', max)
  {
    hide Outstanding;
    SameCounts(b, b', max);
  }

  lemma CountedCarve(st: seq<Stats>, lists: seq<seq<nat>>, b: Layout, max: nat, k: nat, pieces: seq<nat>, b': Layout)
    requires Counted(st, lists, b, max) && k < max && lists[k] == [] && OutsKept(b, b')
    ensures var st' := st[k := st[k].(blocks := st[k].blocks + 1, freefrags := st[k].freefrags + |pieces|)];
      Counted(st', lists[k := pieces], b', max) && Tallied(st, st', max + 1, k, 1)
  {
    hide Outstanding;
    SameCounts(b, b', max);
  }

  lemma CountedTake(st: seq<Stats>, lists: seq<seq<nat>>, b: Layout, max: nat, k: nat, size: nat, mem: nat)
    requires Counted(st, lists, b, max) && k < max && size < max && lists[k] != [] && !GetsLarge(size, max)
      && (mem in b ==> !b[mem].Out?)
    ensures st[k].freefrags > 0
    ensures
      var st1 := st[size := st[size].(gets := st[size].gets + 1, totalgets := st[size].totalgets + 1)];
      var st' := st1[k := st1[k].(freefrags := st1[k].freefrags - 1)];
      && Counted(st', lists[k := lists[k][1..]], b[mem := Out(k, size)], max)
      && Tallied(st, st', size, k, 0)
  {
    hide Outstanding, GetsLarge;
    CountAdded(b, max, mem, Out(k, size));
  }

  lemma CountedLarge(st: seq<Stats>, lists: seq<seq<nat>>, b: Layout, max: nat, mem: nat, size: nat)
    requires Counted(st, lists, b, max) && GetsLarge(size, max) && mem !in b
    ensures var st' := st[max := st[max].(gets := st[max].gets + 1, totalgets := st[max].totalgets + 1)];
      Counted(st', lists, b[mem := Out(size, size)], max) && Tallied(st, st', max, 0, 0)
  {
    hide Outstanding, GetsLarge;
    CountAdded(b, max, mem, Out(size, size));
  }

  lemma CountedLargeBack(st: seq<Stats>, lists: seq<seq<nat>>, b: Layout, max: nat, mem: nat)
    requires Counted(st, lists, b, max) && mem in b && b[mem].Out? && GetsLarge(b[mem].requested, max)
    ensures st[max].gets > 0
    ensures var st' := st[max := st[max].(gets := st[max].gets - 1)];
      Counted(st', lists, b - {mem}, max) && Tallied(st, st', max + 1, 0, 0)
  {
    hide Outstanding, GetsLarge;
    CountRemoved(b, max, mem, b - {mem});
  }

  lemma CountedGive(st: seq<Stats>, lists: seq<seq<nat>>, b: Layout, max: nat, k: nat, size: nat, mem: nat)
    requires Counted(st, lists, b, max) && k < max && size < max && !GetsLarge(size, max)
    requires mem in b && b[mem] == Out(k, size)
    ensures st[size].gets > 0
    ensures
      var st1 := st[size := st[size].(gets := st[size].gets - 1)];
      var st' := st1[k := st1[k].(freefrags := st1[k].freefrags + 1)];
      && Counted(st', lists[k := [mem] + lists[k]], b[mem := Free(k)], max)
      && Tallied(st, st', max + 1, 0, 0)
  {
    hide Outstanding, GetsLarge;
    CountRemoved(b, max, mem, b[mem := Free(k)]);
  }

  /** Lists do not depend on what callers hold. */
  lemma ListsUntouched(next: map<nat, nat>, b: Layout, b': Layout, heads: seq<nat>, lists: seq<seq<nat>>, head: nat,
                       basics: seq<nat>, target: nat)
    requires AllListed(next, heads, lists, b) && Listed(next, head, basics, b, Basic(target))
    requires forall a :: a in b && !b[a].Out? ==> a in b' && b'[a] == b[a]
    requires forall a :: a in b' && !b'[a].Out? ==> a in b && b[a] == b'[a]
    ensures AllListed(next, heads, lists, b') && Listed(next, head, basics, b', Basic(target))
  {
    OthersKeep(next, next, heads, lists, b, b', -1);
    ListedFrame(next, next, head, basics, b, b', Basic(target));
  }

  /** Taking the first block off a list, seen as a whole. */
  lemma TakeOff(next: map<nat, nat>, b: Layout, heads: seq<nat>, lists: seq<seq<nat>>, head: nat, basics: seq<nat>,
                target: nat, k: nat, x: Block)
    requires AllListed(next, heads, lists, b) && Listed(next, head, basics, b, Basic(target)) && Laid(b)
    requires k < |lists| && lists[k] != [] && x.Out? && x.size == k
    ensures var mem := heads[k];
      && mem == lists[k][0] && mem in next && mem in b && b[mem] == Free(k) && Laid(b[mem := x]) && mem > 0
        && mem % 8 == 0
      && AllListed(next, heads[k := next[mem]], lists[k := lists[k][1..]], b[mem := x])
      && Listed(next, head, basics, b[mem := x], Basic(target))
  {
    hide Listed;
    var mem := heads[k];
    assert Listed(next, mem, lists[k], b, Free(k));
    ListedPop(next, mem, lists[k], b, b - {mem}, Free(k));
    ListedPop(next, mem, lists[k], b, b[mem := x], Free(k));
    OthersKeep(next, next, heads, lists, b, b[mem := x], k);
    ListedFrame(next, next, head, basics, b, b[mem := x], Basic(target));
  }

  lemma Rounded(size: nat, max: nat, target: nat)
    requires size <= 0xffff_ffff_ffff_fff8 && Fits(max, target)
    ensures size <= Quantize(size) && Quantize(size) % 8 == 0
    ensures Quantize(size) < max ==> Quantize(size) <= target
  {
    if Quantize(size) < max && size < max {
      QuantizedMultiple(size, max);
    }
  }

  lemma ListEnds(next: map<nat, nat>, head: nat, s: seq<nat>, b: Layout, x: Block)
    requires Laid(b)
    ensures Listed(next, head, s, b, x) ==> (head == 0 <==> s == [])
  {
    if Listed(next, head, s, b, x) {
      ListedEmpty(next, head, s, b, x);
    }
  }

  /** Putting a block on a list, seen as a whole. */
  lemma PutOn(next: map<nat, nat>, b: Layout, heads: seq<nat>, lists: seq<seq<nat>>, head: nat, basics: seq<nat>,
              target: nat, k: nat, mem: nat)
    requires AllListed(next, heads, lists, b) && Listed(next, head, basics, b, Basic(target)) && Laid(b)
    requires k < |lists| && mem in b && b[mem].Out? && b[mem].size == k
    ensures var n2, b2 := next[mem := heads[k]], b[mem := Free(k)];
      && Laid(b2) && AllListed(n2, heads[k := mem], lists[k := [mem] + lists[k]], b2)
        && Listed(n2, head, basics, b2, Basic(target))
  {
    hide Listed;
    var n2, b2 := next[mem := heads[k]], b[mem := Free(k)];
    assert Listed(next, heads[k], lists[k], b, Free(k));
    NotListed(next, heads[k], lists[k], b, Free(k), mem);
    ListedPush(next, heads[k], lists[k], b, Free(k), mem);
    OthersKeep(next, n2, heads, lists, b, b2, k);
    ListedFrame(next, n2, head, basics, b, b2, Basic(target));
  }

  lemma NotListed(next: map<nat, nat>, head: nat, s: seq<nat>, b: Layout, x: Block, a: nat)
    requires Listed(next, head, s, b, x) && a in b && b[a] != x
    ensures a !in s
  {
  }

  /** No block begins inside another. */
  lemma WordApart(b: Layout, mem: nat, offset: nat)
    requires Laid(b) && mem in b && offset + 8 <= b[mem].size
    ensures mem + offset in b ==> offset == 0
  {
  }

  lemma LinksApart(next: map<nat, nat>, next': map<nat, nat>, b: Layout, heads: seq<nat>, lists: seq<seq<nat>>,
                   head: nat, basics: seq<nat>, target: nat, a: nat)
    requires AllListed(next, heads, lists, b) && Listed(next, head, basics, b, Basic(target))
    requires (a in b ==> b[a].Out?) && forall c :: c in next && c != a ==> c in next' && next'[c] == next[c]
    ensures AllListed(next', heads, lists, b) && Listed(next', head, basics, b, Basic(target))
  {
    OthersKeep(next, next', heads, lists, b, b, -1);
    ListedFrame(next, next', head, basics, b, b, Basic(target));
  }

  lemma OutCounted(b: Layout, max: nat)
    requires max > 0 && forall a :: a in b && b[a].Out? ==> b[a].requested > 0
    ensures forall a :: a in b && b[a].Out? ==>
      1 <= Slot(b[a].requested, max) <= max && a in Outstanding(b, max, Slot(b[a].requested, max))
  {
  }

  lemma BasicOff(next: map<nat, nat>, area: nat, basics: seq<nat>, b: Layout, target: nat)
    requires Listed(next, area, basics, b, Basic(target)) && basics != []
    ensures area in next && area in b && b[area] == Basic(target) && basics[0] == area
  {
    ListedPop(next, area, basics, b, b - {area}, Basic(target));
  }

  lemma CutPieces(area: nat, k: nat, target: nat)
    requires 0 < k <= target
    ensures CutFrom(Pieces(area, k, target / k), area, k, target, 0)
  {
    hide Pieces;
    Divided(target, k);
    PieceAt(area, k, target / k);
  }

  lemma CutRest(s: seq<nat>, first: nat, k: nat, target: nat)
    requires CutFrom(s, first, k, target, 0) && s != []
    ensures s[0] == first && CutFrom(s[1..], first, k, target, 1)
  {
    assert forall i :: 0 <= i < |s[1..]| ==> s[1..][i] == s[i + 1];
  }

  lemma CarvedSorted(b: Layout, area: nat, frags: nat, k: nat)
    requires Laid(b) && area in b && b[area].Basic? && frags * k <= b[area].size && 0 < k && k % 8 == 0
    ensures var b2 := Carved(b - {area}, area, frags, Free(k));
      && OutsKept(b, b2) && Laid(b2)
      && forall a :: a in b2 ==> b2[a] == Free(k) || (a in b && b2[a] == b[a])
  {
    hide Laid, Vacant, Pieces, Carved;
    RemoveOne(b, area);
    CarvedLaid(b - {area}, area, b[area].size, frags, Free(k));
  }

  lemma SameCounts(b: Layout, b': Layout, max: nat)
    requires OutsKept(b, b')
    ensures forall slot: nat :: Outstanding(b', max, slot) == Outstanding(b, max, slot)
  {
    forall slot: nat
      ensures Outstanding(b', max, slot) == Outstanding(b, max, slot)
    {
      OutstandingSame(b, b', max, slot);
    }
  }

  /** Cutting up the first basic block, seen as a whole. */
  lemma CutUp(n0: map<nat, nat>, linked: map<nat, nat>, b: Layout, area: nat, basics: seq<nat>, target: nat,
              heads: seq<nat>, lists: seq<seq<nat>>, k: nat, frags: nat, curr: nat)
    requires Laid(b) && Listed(n0, area, basics, b, Basic(target)) && basics != [] && AllListed(n0, heads, lists, b)
    requires 0 < k < |lists| == |heads| && k % 8 == 0 && lists[k] == [] && 0 < frags && frags * k <= target
    requires Path(linked, area, Pieces(area, k, frags - 1), curr)
      && Pieces(area, k, frags) == Pieces(area, k, frags - 1) + [curr]
    requires forall a :: a !in Pieces(area, k, frags) && a in n0 ==> a in linked && linked[a] == n0[a]
    ensures area in n0
    ensures var n2, b2 := linked[curr := heads[k]], Carved(b - {area}, area, frags, Free(k));
      && Laid(b2) && Listed(n2, n0[area], basics[1..], b2, Basic(target)) && |Pieces(area, k, frags)| == frags
      && AllListed(n2, heads[k := area], lists[k := Pieces(area, k, frags)], b2)
  {
    hide Listed, Laid, Vacant, Pieces, Carved, Path;
    var x, b1, p := Free(k), b - {area}, Pieces(area, k, frags);
    var n2, b2 := linked[curr := heads[k]], Carved(b1, area, frags, x);
    BasicOff(n0, area, basics, b, target);
    ListedPop(n0, area, basics, b, b1, Basic(target));
    RemoveOne(b, area);
    ListedFrame(n0, n0, heads[k], [], b, b1, x);
    CarvedLaid(b1, area, target, frags, x);
    ListedFill(n0, linked, b1, area, target, frags, x, curr, heads[k], []);
    OthersKeep(n0, n2, heads, lists, b, b2, k);
    ListedFrame(n0, n2, n0[area], basics[1..], b1, b2, Basic(target));
    PieceAt(area, k, frags);
    assert p + [] == p;
  }

  lemma LinkStart(next: map<nat, nat>, first: nat, size: nat)
    ensures Path(next, first, Pieces(first, size, 0), first)
    ensures Pieces(first, size, 1) == Pieces(first, size, 0) + [first]
  {
    PiecesSnoc(first, size, 0);
  }

  lemma LinkStep(next: map<nat, nat>, first: nat, size: nat, i: nat, curr: nat)
    requires size > 0 && curr == first + i * size && Path(next, first, Pieces(first, size, i), curr)
    ensures Path(next[curr := curr + size], first, Pieces(first, size, i + 1), curr + size)
    ensures Pieces(first, size, i + 1) == Pieces(first, size, i) + [curr]
    ensures Pieces(first, size, i + 2) == Pieces(first, size, i + 1) + [curr + size]
    ensures curr + size == first + (i + 1) * size
  {
    hide Path, Pieces;
    PiecesSnoc(first, size, i);
    PiecesSnoc(first, size, i + 1);
    Multiple(i + 1, size);
    PiecesDistinct(first, size, i + 1);
    var p := Pieces(first, size, i + 1);
    assert forall j :: 0 <= j < i ==> p[j] != p[i] by {
      PieceAt(first, size, i);
    }
    PieceAt(first, size, i);
    PathExtend(next, first, Pieces(first, size, i), curr, curr + size);
  }

  lemma Divided(target: nat, size: nat)
    requires 0 < size <= target
    ensures 0 < target / size && target / size * size <= target < (target / size + 1) * size
  {
  }

  lemma {:induction false} PiecesSnoc(first: nat, size: nat, n: nat)
    ensures Pieces(first, size, n + 1) == Pieces(first, size, n) + [first + n * size]
    decreases n
  {
    if n > 0 {
      PiecesSnoc(first + size, size, n - 1);
      Multiple(n, size);
      assert Pieces(first, size, n + 1) == [first] + Pieces(first + size, size, n);
    } else {
      assert Pieces(first, size, 1) == [first] + Pieces(first + size, size, 0);
    }
  }
}
