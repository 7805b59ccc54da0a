/** The priority queue of the event library: an array heap, 1-based, that tells
    every element where it is. */
module TimerHeap {
  import opened Basics
  import opened EvTime

  class Timer {
    var due: Timespec
    var inter: Timespec
    var rate: bool
    var index: int

    constructor (due: Timespec, inter: Timespec, rate: bool)
      ensures this.due == due && this.inter == inter && this.rate == rate
    {
      this.due, this.inter, this.rate, index := due, inter, rate, 0;
    }
  }

  /** A strict weak order: what the queue needs of `higher_priority`. */
  ghost predicate StrictWeak(higher: (Timespec, Timespec) -> bool) {
    && (forall a, b :: higher(a, b) ==> !higher(b, a))
    && (forall a, b, c :: higher(a, b) ==> higher(a, c) || higher(c, b))
  }

  // ----- heap order on the keys alone ----------------------------------------

  /** `k[1..]` is a heap: no element is strictly ahead of its parent. */
  ghost predicate Ord(higher: (Timespec, Timespec) -> bool, k: seq<Timespec>) {
    forall j :: 2 <= j < |k| ==> !higher(k[j], k[j / 2])
  }

  /** A heap with a hole at `i`: the children of the hole respect its parent. */
  ghost predicate HoleOrd(higher: (Timespec, Timespec) -> bool, k: seq<Timespec>, i: nat) {
    && 1 <= i < |k| && StrictWeak(higher)
    && (forall j :: 2 <= j < |k| && j != i && j / 2 != i ==> !higher(k[j], k[j / 2]))
    && (forall j :: 4 <= j < |k| && j / 2 == i ==> !higher(k[j], k[i / 2]))
  }

  ghost predicate AboveChildren(higher: (Timespec, Timespec) -> bool, k: seq<Timespec>, i: nat, x: Timespec) {
    forall j :: 2 <= j < |k| && j / 2 == i ==> !higher(k[j], x)
  }

  ghost predicate BelowParent(higher: (Timespec, Timespec) -> bool, k: seq<Timespec>, i: nat, x: Timespec) {
    1 < i < 2 * |k| ==> !higher(x, k[i / 2])
  }

  lemma FillHole(higher: (Timespec, Timespec) -> bool, k: seq<Timespec>, i: nat, x: Timespec)
    requires HoleOrd(higher, k, i) && AboveChildren(higher, k, i, x) && BelowParent(higher, k, i, x)
    ensures Ord(higher, k[i := x])
  {
  }

  /** Moving the parent down into the hole. */
  lemma FloatStep(higher: (Timespec, Timespec) -> bool, k: seq<Timespec>, i: nat, x: Timespec)
    requires HoleOrd(higher, k, i) && AboveChildren(higher, k, i, x) && i > 1 && higher(x, k[i / 2])
    ensures HoleOrd(higher, k[i := k[i / 2]], i / 2)
    ensures AboveChildren(higher, k[i := k[i / 2]], i / 2, x)
  {
    var p := i / 2;
    var k' := k[i := k[p]];
    forall j | 2 <= j < |k| && j / 2 == p
      ensures !higher(k'[j], x)
      ensures p > 1 ==> !higher(k'[j], k'[p / 2])
    {
      if j != i && p > 1 {
        assert !higher(k[j], k[p]) && !higher(k[p], k[p / 2]);
      }
    }
  }

  /** Moving the better child up into the hole. */
  lemma SinkStep(higher: (Timespec, Timespec) -> bool, k: seq<Timespec>, i: nat, x: Timespec, j: nat)
    requires HoleOrd(higher, k, i) && BelowParent(higher, k, i, x)
    requires 2 <= j < |k| && j / 2 == i && !higher(x, k[j])
    requires forall c :: 2 <= c < |k| && c / 2 == i ==> !higher(k[c], k[j])
    ensures HoleOrd(higher, k[i := k[j]], j)
    ensures BelowParent(higher, k[i := k[j]], j, x)
  {
  }

  /** Where sinking stops, `x` fits. */
  lemma SinkStops(higher: (Timespec, Timespec) -> bool, k: seq<Timespec>, i: nat, x: Timespec, j: nat)
    requires HoleOrd(higher, k, i)
    requires 2 <= j < |k| && j / 2 == i && higher(x, k[j])
    requires forall c :: 2 <= c < |k| && c / 2 == i ==> !higher(k[c], k[j])
    ensures AboveChildren(higher, k, i, x)
  {
  }

  /** Slot 0 does not matter. */
  lemma OrdSame(higher: (Timespec, Timespec) -> bool, k: seq<Timespec>, k': seq<Timespec>)
    requires Ord(higher, k) && |k| == |k'| && forall j :: 1 <= j < |k| ==> k[j] == k'[j]
    ensures Ord(higher, k')
  {
  }

  lemma OrdPrefix(higher: (Timespec, Timespec) -> bool, k: seq<Timespec>, n: nat)
    requires Ord(higher, k) && n <= |k|
    ensures Ord(higher, k[..n])
  {
  }

  /** A new last slot is a hole with nothing below it. */
  lemma OpenAtEnd(higher: (Timespec, Timespec) -> bool, k: seq<Timespec>, x: Timespec)
    requires StrictWeak(higher) && Ord(higher, k) && |k| >= 1
    ensures HoleOrd(higher, k + [x], |k|) && AboveChildren(higher, k + [x], |k|, x)
  {
  }

  /** Any slot of a heap can be taken as a hole. */
  lemma OpenAt(higher: (Timespec, Timespec) -> bool, k: seq<Timespec>, i: nat)
    requires StrictWeak(higher) && Ord(higher, k) && 1 <= i < |k|
    ensures HoleOrd(higher, k, i)
  {
    forall j | 4 <= j < |k| && j / 2 == i
      ensures !higher(k[j], k[i / 2])
    {
      assert !higher(k[j], k[j / 2]) && !higher(k[i], k[i / 2]);
    }
  }

  /** An element ahead of the old one is ahead of its children... */
  lemma AheadOfChildren(higher: (Timespec, Timespec) -> bool, k: seq<Timespec>, i: nat, x: Timespec)
    requires StrictWeak(higher) && Ord(higher, k) && 1 <= i < |k| && higher(x, k[i])
    ensures AboveChildren(higher, k, i, x)
  {
    forall j | 2 <= j < |k| && j / 2 == i
      ensures !higher(k[j], x)
    {
      assert !higher(k[j], k[j / 2]);
    }
  }

  /** ... and one that is not ahead of the old one is not ahead of its parent. */
  lemma BehindParent(higher: (Timespec, Timespec) -> bool, k: seq<Timespec>, i: nat, x: Timespec)
    requires StrictWeak(higher) && Ord(higher, k) && 1 <= i < |k| && !higher(x, k[i])
    ensures BelowParent(higher, k, i, x)
  {
    if i > 1 {
      assert !higher(k[i], k[i / 2]);
    }
  }

  lemma AheadOrEqual(higher: (Timespec, Timespec) -> bool, k: seq<Timespec>, i: nat, x: Timespec)
    requires StrictWeak(higher) && Ord(higher, k) && 1 <= i < |k| && !higher(k[i], x)
    ensures AboveChildren(higher, k, i, x)
  {
    forall j | 2 <= j < |k| && j / 2 == i
      ensures !higher(k[j], x)
    {
      assert !higher(k[j], k[j / 2]);
    }
  }

  lemma {:induction false} RootLeast(higher: (Timespec, Timespec) -> bool, k: seq<Timespec>, j: nat)
    requires StrictWeak(higher) && Ord(higher, k) && 1 <= j < |k|
    ensures !higher(k[j], k[1])
    decreases j
  {
    if j > 1 {
      RootLeast(higher, k, j / 2);
      assert !higher(k[j], k[j / 2]);
    }
  }

  /** The array size after `n` insertions into a new heap. */
  function ArraySizeAfter(n: nat, increment: nat): nat {
    if n == 0 then 0
    else var a := ArraySizeAfter(n - 1, increment); if n >= a then a + increment else a
  }

  /** The slot written by the n-th insertion lies inside the array, for every n,
      exactly if the array grows by two or more at a time. */
  lemma GrowthSuffices(increment: nat)
    requires increment > 0
    ensures (forall n: nat :: n >= 1 ==> n < ArraySizeAfter(n, increment)) <==> increment >= 2
  {
    if increment >= 2 {
      forall n: nat | n >= 1
        ensures n < ArraySizeAfter(n, increment)
      {
        GrowthKeepsUp(n, increment);
      }
    } else {
      assert ArraySizeAfter(0, 1) == 0;
      assert !(1 < ArraySizeAfter(1, 1));
    }
  }

  lemma {:induction false} GrowthKeepsUp(n: nat, increment: nat)
    requires n >= 1 && increment >= 2
    ensures n < ArraySizeAfter(n, increment)
    decreases n
  {
    if n == 1 {
      assert ArraySizeAfter(0, increment) == 0;
    } else {
      GrowthKeepsUp(n - 1, increment);
    }
  }

  class Heap {
    var arraySize: nat
    const increment: nat
    var heapSize: nat
    var heap: array<Timer?>
    const higher: (Timespec, Timespec) -> bool
    ghost var contents: set<Timer>

    constructor (higher: (Timespec, Timespec) -> bool, increment: nat)
      requires StrictWeak(higher)
      ensures Valid() && contents == {} && this.higher == higher && fresh(heap) && heapSize == arraySize == 0
      ensures this.increment == if increment == 0 then 512 else increment
    {
      arraySize, heapSize, contents := 0, 0, {};
      this.increment := if increment == 0 then 512 else increment;
      this.higher := higher;
      heap := new Timer?[0];
    }

    /** The first `heapSize` slots hold the contents, each element knowing its slot;
        slot `hole` is exempt and stands for the element `elt`. */
    ghost predicate Indexed(hole: int, elt: Timer?)
      reads this, heap, contents`index
    {
      && heap.Length == arraySize && (heapSize < arraySize || heapSize == 0)
      && (forall i :: 1 <= i <= heapSize && i != hole ==>
            heap[i] != null && heap[i] in contents && heap[i] != elt && heap[i].index == i)
      && (forall t :: t in contents && t != elt ==> 1 <= t.index <= heapSize && t.index != hole && heap[t.index] == t)
    }

    /** `k` lists the due times slot by slot, `hole` exempt. */
    ghost predicate Keyed(k: seq<Timespec>, hole: int, elt: Timer?)
      requires Indexed(hole, elt)
      reads this, heap, contents`index, contents`due
    {
      && |k| == heapSize + 1
      && forall i :: 1 <= i <= heapSize && i != hole ==> k[i] == heap[i].due
    }

    /** The due times of slots 1 to `n`, behind a filler for slot 0. */
    ghost function KeysTo(n: nat): (k: seq<Timespec>)
      requires Indexed(0, null) && n <= heapSize
      reads this, heap, contents`index, contents`due
      ensures |k| == n + 1 && forall i :: 1 <= i <= n ==> k[i] == heap[i].due
    {
      if n == 0 then [Timespec(0, 0)] else KeysTo(n - 1) + [heap[n].due]
    }

    ghost function Keys(): (k: seq<Timespec>)
      requires Indexed(0, null)
      reads this, heap, contents`index, contents`due
      ensures Keyed(k, 0, null)
    {
      KeysTo(heapSize)
    }

    ghost predicate Valid()
      reads this, heap, contents`index, contents`due
    {
      StrictWeak(higher) && Indexed(0, null) && Ord(higher, Keys())
    }

    /** Moves the element of slot `j` into the hole at `i`; the hole is now at `j`. */
    method MoveInto(i: nat, j: nat, elt: Timer, ghost k: seq<Timespec>)
      requires Indexed(i, elt) && Keyed(k, i, elt) && 1 <= i <= heapSize && 1 <= j <= heapSize && i != j
      modifies heap, contents`index
      ensures Indexed(j, elt) && Keyed(k[i := k[j]], j, elt)
    {
      heap[i] := heap[j];
      heap[i].index := i;
    }

    /** Fills the hole with the element it waits for. */
    method Place(i: nat, elt: Timer, ghost k: seq<Timespec>)
      requires elt in contents && Indexed(i, elt) && Keyed(k, i, elt) && 1 <= i <= heapSize
      requires StrictWeak(higher) && Ord(higher, k[i := elt.due])
      modifies heap, contents`index
      ensures Valid()
    {
      heap[i] := elt;
      elt.index := i;
      OrdSame(higher, k[i := elt.due], Keys());
    }

    /** Puts `elt` into the hole at `i0`, or into an ancestor of it. */
    method FloatUp(i0: nat, elt: Timer, ghost k0: seq<Timespec>)
      requires elt in contents && Indexed(i0, elt) && Keyed(k0, i0, elt)
      requires HoleOrd(higher, k0, i0) && AboveChildren(higher, k0, i0, elt.due)
      modifies heap, contents`index
      ensures Valid()
    {
      hide AboveChildren, StrictWeak;
      var i: nat, p: nat := i0, i0 / 2;
      ghost var k := k0;
      while i > 1 && higher(elt.due, heap[p].due)
        invariant p == i / 2 && Indexed(i, elt) && Keyed(k, i, elt)
        invariant HoleOrd(higher, k, i) && AboveChildren(higher, k, i, elt.due)
        decreases i
      {
        FloatStep(higher, k, i, elt.due);
        MoveInto(i, p, elt, k);
        k := k[i := k[p]];
        i := p;
        p := i / 2;
      }
      FillHole(higher, k, i, elt.due);
      Place(i, elt, k);
    }

    /** The child of the hole that nothing below the hole is ahead of. */
    method BetterChild(i: nat, elt: Timer, ghost k: seq<Timespec>) returns (j: nat)
      requires Indexed(i, elt) && Keyed(k, i, elt) && StrictWeak(higher) && 1 <= i <= heapSize / 2
      ensures 2 <= j <= heapSize && j / 2 == i
      ensures forall c :: 2 <= c < |k| && c / 2 == i ==> !higher(k[c], k[j])
    {
      j := 2 * i;
      if j < heapSize && higher(heap[j + 1].due, heap[j].due) {
        j := j + 1;
      }
      forall c | 2 <= c < |k| && c / 2 == i
        ensures !higher(k[c], k[j])
      {
        assert c == 2 * i || c == 2 * i + 1;
        assert k[c] == heap[c].due && k[j] == heap[j].due;
      }
    }

    /** Puts `elt` into the hole at `i0`, or into a descendant of it. */
    method SinkDown(i0: nat, elt: Timer, ghost k0: seq<Timespec>)
      requires elt in contents && Indexed(i0, elt) && Keyed(k0, i0, elt)
      requires HoleOrd(higher, k0, i0) && BelowParent(higher, k0, i0, elt.due)
      modifies heap, contents`index
      ensures Valid()
    {
      hide AboveChildren, BelowParent, StrictWeak;
      var i: nat := i0;
      var size := heapSize;
      var half := size / 2;
      ghost var k := k0;
      while i <= half
        invariant Indexed(i, elt) && Keyed(k, i, elt) && size == heapSize
        invariant HoleOrd(higher, k, i) && BelowParent(higher, k, i, elt.due)
        decreases size - i
      {
        var j := BetterChild(i, elt, k);
        if higher(elt.due, heap[j].due) {
          SinkStops(higher, k, i, elt.due, j);
          break;
        }
        SinkStep(higher, k, i, elt.due, j);
        MoveInto(i, j, elt, k);
        k := k[i := k[j]];
        i := j;
      }
      FillHole(higher, k, i, elt.due);
      Place(i, elt, k);
    }

    /** Enlarges the array by one increment, keeping the slots. */
    method Resize()
      requires heap.Length == arraySize
      modifies this`arraySize, this`heap
      ensures arraySize == old(arraySize) + increment && heap.Length == arraySize && fresh(heap)
      ensures forall i :: 0 <= i < old(arraySize) ==> heap[i] == old(heap)[i]
    {
      arraySize := arraySize + increment;
      var h := new Timer?[arraySize];
      forall i | 0 <= i < heap.Length {
        h[i] := heap[i];
      }
      heap := h;
    }

    method Insert(elt: Timer)
      requires Valid() && elt !in contents && heapSize + 1 < arraySize + increment
      modifies this`arraySize, this`heap, this`heapSize, this`contents, heap, contents`index, elt`index
      ensures Valid() && contents == old(contents) + {elt} && heapSize == old(heapSize) + 1
      ensures heapSize < arraySize
      ensures arraySize == if heapSize >= old(arraySize) then old(arraySize) + increment else old(arraySize)
      ensures heap == old(heap) || fresh(heap)
    {
      ghost var k := Keys();
      var i := heapSize + 1;
      if i >= arraySize {
        Resize();
      }
      heapSize := i;
      contents := contents + {elt};
      ghost var k' := k + [elt.due];
      OpenAtEnd(higher, k, elt.due);
      FloatUp(i, elt, k');
    }

    /** Takes the element of the last slot out. */
    method PopLast() returns (elt: Timer)
      requires Valid() && heapSize > 0
      modifies this`heapSize, this`contents
      ensures Valid() && heapSize == old(heapSize) - 1
      ensures elt == old(heap[heapSize]) && elt in old(contents) && contents == old(contents) - {elt}
    {
      ghost var k := Keys();
      elt := heap[heapSize];
      heapSize := heapSize - 1;
      contents := contents - {elt};
      OrdPrefix(higher, k, heapSize + 1);
      OrdSame(higher, k[..heapSize + 1], Keys());
    }

    /** Puts `elt` in place of the element in slot `i`. */
    method Replace(i: nat, elt: Timer)
      requires Valid() && 1 <= i <= heapSize && elt !in contents
      modifies this`contents, heap, contents`index, elt`index
      ensures Valid() && contents == old(contents) - {old(heap[i])} + {elt}
    {
      hide StrictWeak, Ord, HoleOrd, AboveChildren, BelowParent;
      ghost var k := Keys();
      contents := contents - {heap[i]} + {elt};
      var less := higher(elt.due, heap[i].due);
      heap[i] := elt;
      OpenAt(higher, k, i);
      if less {
        AheadOfChildren(higher, k, i, elt.due);
        FloatUp(i, elt, k);
      } else {
        BehindParent(higher, k, i, elt.due);
        SinkDown(i, elt, k);
      }
    }

    /** Removes the element in slot `i`. */
    method Delete(i: int) returns (ok: bool)
      requires Valid()
      modifies this`heapSize, this`contents, heap, contents`index
      ensures Valid() && ok == (1 <= i <= old(heapSize))
      ensures contents == if ok then old(contents) - {old(heap[i])} else old(contents)
      ensures heapSize == if ok then old(heapSize) - 1 else old(heapSize)
    {
      if i < 1 || i > heapSize {
        return false;
      }
      var last := i == heapSize;
      ghost var gone := heap[i];
      var elt := PopLast();
      if !last {
        assert elt != gone;
        Replace(i, elt);
      }
      return true;
    }

    /** `k` are the due times before the one in slot `i` was changed. */
    ghost predicate OrderedBefore(k: seq<Timespec>, i: int)
      reads this, heap, contents`index, contents`due
    {
      && StrictWeak(higher) && Indexed(0, null) && Ord(higher, k)
      && |k| == heapSize + 1
      && forall j :: 1 <= j <= heapSize && j != i ==> k[j] == heap[j].due
    }

    /** Restores the order after the element in slot `i` moved ahead. */
    method Increased(i: int, ghost k: seq<Timespec>) returns (ok: bool)
      requires OrderedBefore(k, i)
      requires 1 <= i <= heapSize ==> !higher(k[i], heap[i].due)
      modifies heap, contents`index
      ensures Valid() && ok == (1 <= i <= heapSize)
    {
      if i < 1 || i > heapSize {
        OrdSame(higher, k, Keys());
        return false;
      }
      OpenAt(higher, k, i);
      AheadOrEqual(higher, k, i, heap[i].due);
      FloatUp(i, heap[i], k);
      return true;
    }

    /** Restores the order after the element in slot `i` moved back. */
    method Decreased(i: int, ghost k: seq<Timespec>) returns (ok: bool)
      requires OrderedBefore(k, i)
      requires 1 <= i <= heapSize ==> !higher(heap[i].due, k[i])
      modifies heap, contents`index
      ensures Valid() && ok == (1 <= i <= heapSize)
    {
      if i < 1 || i > heapSize {
        OrdSame(higher, k, Keys());
        return false;
      }
      OpenAt(higher, k, i);
      BehindParent(higher, k, i, heap[i].due);
      SinkDown(i, heap[i], k);
      return true;
    }

    method Element(i: int) returns (t: Timer?)
      requires Valid()
      ensures t == if 1 <= i <= heapSize then heap[i] else null
      ensures t != null ==> t in contents && t.index == i
    {
      t := if i < 1 || i > heapSize then null else heap[i];
    }

    /** Nothing in the heap is strictly ahead of the element in slot 1. */
    lemma RootIsFirst(t: Timer)
      requires Valid() && t in contents
      ensures heapSize >= 1 && heap[1] in contents && !higher(t.due, heap[1].due)
    {
      RootLeast(higher, Keys(), t.index);
    }
  }

  /** Insertions into a new heap, one after the other, for as long as the slot of the next one
      lies inside the array. That goes on to the end for every sequence of elements exactly if
      the array grows by two or more at a time. */
  method Fill(higher: (Timespec, Timespec) -> bool, increment: nat, elts: seq<Timer>) returns (h: Heap, done: nat)
    requires StrictWeak(higher) && Distinct(elts)
    modifies elts`index
    ensures fresh(h) && h.Valid() && h.higher == higher && h.heapSize == done <= |elts|
    ensures h.contents == set t | t in elts[..done]
    ensures h.arraySize == ArraySizeAfter(done, h.increment)
    ensures done < |elts| ==> done + 1 >= ArraySizeAfter(done + 1, h.increment)
    ensures done == |elts| <==> elts == [] || increment != 1
  {
    hide StrictWeak, Heap.Valid, Distinct, ArraySizeAfter;
    h := new Heap(higher, increment);
    done := 0;
    GrowthStarts(h.increment);
    while done < |elts| && h.heapSize + 1 < h.arraySize + h.increment
      invariant fresh(h) && fresh(h.heap) && h.Valid() && h.higher == higher && h.heapSize == done <= |elts|
      invariant h.contents == set t | t in elts[..done]
      invariant h.arraySize == ArraySizeAfter(done, h.increment) && (done > 0 ==> h.increment >= 2)
    {
      GrowthStep(done, h.increment);
      NotYetIn(elts, done);
      assert elts[..done + 1] == elts[..done] + [elts[done]];
      h.Insert(elts[done]);
      done := done + 1;
    }
    GrowthStep(done, h.increment);
  }

  lemma GrowthStarts(increment: nat)
    ensures ArraySizeAfter(0, increment) == 0
  {
  }

  lemma GrowthStep(n: nat, increment: nat)
    requires increment > 0 && (n > 0 ==> increment >= 2)
    ensures var a := ArraySizeAfter(n, increment);
      ArraySizeAfter(n + 1, increment) == if n + 1 >= a then a + increment else a
    ensures n + 1 < ArraySizeAfter(n, increment) + increment <==> increment >= 2
    ensures n + 1 < ArraySizeAfter(n, increment) + increment <==> n + 1 < ArraySizeAfter(n + 1, increment)
  {
    if increment >= 2 {
      GrowthKeepsUp(n + 1, increment);
    }
  }

  lemma NotYetIn(elts: seq<Timer>, n: nat)
    requires Distinct(elts) && n < |elts|
    ensures elts[n] !in elts[..n]
  {
  }
}
