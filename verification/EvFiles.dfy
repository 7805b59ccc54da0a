/** Registered file events as a list, newest first, and what can be computed from it. */
module EvFilesSpec {
  import opened Basics

  datatype Mask = Mask(read: bool, write: bool, except: bool)

  const ALL_EVENTS: Mask := Mask(true, true, true)
  const NO_EVENTS: Mask := Mask(false, false, false)

  function Or(a: Mask, b: Mask): Mask {
    Mask(a.read || b.read, a.write || b.write, a.except || b.except)
  }

  predicate Common(a: Mask, b: Mask) {
    (a.read && b.read) || (a.write && b.write) || (a.except && b.except)
  }

  /** One registration; the four links thread it into two lists. */
  class EvFile {
    const fd: int
    const mask: Mask
    var prev: EvFile?
    var next: EvFile?
    var fdprev: EvFile?
    var fdnext: EvFile?

    constructor (fd: int, mask: Mask)
      ensures this.fd == fd && this.mask == mask
    {
      this.fd, this.mask := fd, mask;
      prev, next, fdprev, fdnext := null, null, null, null;
    }
  }

  /** The events of a mask given as bits. */
  function Events(mask: int): Mask
    requires 0 <= mask < 8
  {
    Mask(mask % 2 == 1, mask / 2 % 2 == 1, mask / 4 == 1)
  }

  function At(s: seq<EvFile>, i: int): EvFile? {
    if 0 <= i < |s| then s[i] else null
  }

  /** The registrations of one descriptor. */
  function OnFd(s: seq<EvFile>, fd: int): (r: seq<EvFile>)
    ensures forall i :: 0 <= i < |r| ==> r[i] in s && r[i].fd == fd
  {
    if s == [] then [] else (if s[0].fd == fd then [s[0]] else []) + OnFd(s[1..], fd)
  }

  /** The events that some registration of the descriptor wants. */
  function Wanted(s: seq<EvFile>, fd: int): Mask {
    if s == [] then NO_EVENTS else Or(if s[0].fd == fd then s[0].mask else NO_EVENTS, Wanted(s[1..], fd))
  }

  function MaxFd(s: seq<EvFile>): int {
    if s == [] then -1 else var m := MaxFd(s[1..]); if s[0].fd > m then s[0].fd else m
  }

  /** No event of a descriptor is wanted twice, and nothing is registered twice or for no
      event at all. */
  ghost predicate Apart(s: seq<EvFile>) {
    && (forall i :: 0 <= i < |s| ==> s[i].mask != NO_EVENTS && s[i].fd >= 0)
    && (forall i, j :: 0 <= i < j < |s| ==> s[i] != s[j] && (s[i].fd == s[j].fd ==> !Common(s[i].mask, s[j].mask)))
  }

  lemma {:induction false} OnFdAppend(a: seq<EvFile>, b: seq<EvFile>, fd: int)
    ensures OnFd(a + b, fd) == OnFd(a, fd) + OnFd(b, fd)
  {
    if a == [] {
      assert a + b == b;
    } else {
      assert (a + b)[1..] == a[1..] + b;
      OnFdAppend(a[1..], b, fd);
    }
  }

  lemma {:induction false} WantedAppend(a: seq<EvFile>, b: seq<EvFile>, fd: int)
    ensures Wanted(a + b, fd) == Or(Wanted(a, fd), Wanted(b, fd))
  {
    if a == [] {
      assert a + b == b;
    } else {
      assert (a + b)[1..] == a[1..] + b;
      WantedAppend(a[1..], b, fd);
    }
  }

  lemma {:induction false} OnFdHolds(s: seq<EvFile>, fd: int)
    ensures forall i :: 0 <= i < |s| && s[i].fd == fd ==> s[i] in OnFd(s, fd)
  {
    if s != [] {
      OnFdHolds(s[1..], fd);
    }
  }

  lemma {:induction false} WantedCommon(s: seq<EvFile>, fd: int, events: Mask)
    ensures Common(Wanted(s, fd), events) <==> exists i :: 0 <= i < |s| && s[i].fd == fd && Common(s[i].mask, events)
  {
    if s != [] {
      WantedCommon(s[1..], fd, events);
      if i :| 0 <= i < |s[1..]| && s[1..][i].fd == fd && Common(s[1..][i].mask, events) {
        assert s[i + 1].fd == fd && Common(s[i + 1].mask, events);
      }
    }
  }

  /** What is wanted of a descriptor, registration by registration. */
  lemma {:induction false} WantedIs(s: seq<EvFile>, fd: int)
    ensures Wanted(s, fd).read <==> exists n :: n in s && n.fd == fd && n.mask.read
    ensures Wanted(s, fd).write <==> exists n :: n in s && n.fd == fd && n.mask.write
    ensures Wanted(s, fd).except <==> exists n :: n in s && n.fd == fd && n.mask.except
    ensures OnFd(s, fd) == [] <==> forall n :: n in s ==> n.fd != fd
  {
    if s != [] {
      WantedIs(s[1..], fd);
      assert forall n :: n in s <==> n == s[0] || n in s[1..];
    }
  }

  /** The bits 1, 2 and 4 stand for the three events. */
  lemma EventBits(mask: int)
    requires 0 < mask < 8
    ensures Events(mask).read <==> mask in {1, 3, 5, 7}
    ensures Events(mask).write <==> mask in {2, 3, 6, 7}
    ensures Events(mask).except <==> mask in {4, 5, 6, 7}
  {
  }

  /** The registration wants one of the events. */
  predicate Meets(n: EvFile, events: Mask) {
    Common(n.mask, events)
  }

  lemma ChainMeets(s: seq<EvFile>, fd: int, events: Mask)
    ensures !Common(Wanted(s, fd), events) ==> forall i :: 0 <= i < |OnFd(s, fd)| ==> !Meets(OnFd(s, fd)[i], events)
    ensures Common(Wanted(s, fd), events) ==> exists i :: 0 <= i < |OnFd(s, fd)| && Meets(OnFd(s, fd)[i], events)
  {
    var chain := OnFd(s, fd);
    OnFdHolds(s, fd);
    WantedCommon(s, fd, events);
    if Common(Wanted(s, fd), events) {
      var i :| 0 <= i < |s| && s[i].fd == fd && Common(s[i].mask, events);
      var j :| 0 <= j < |chain| && chain[j] == s[i];
      assert Meets(chain[j], events);
    }
  }

  lemma AllMeet(s: seq<EvFile>, fd: int)
    requires Apart(s)
    ensures forall i :: 0 <= i < |OnFd(s, fd)| ==> Meets(OnFd(s, fd)[i], ALL_EVENTS)
  {
  }

  lemma {:induction false} MaxFdIs(s: seq<EvFile>)
    requires forall n :: n in s ==> n.fd >= 0
    ensures forall n :: n in s ==> n.fd <= MaxFd(s)
    ensures s == [] <==> MaxFd(s) == -1
    ensures s != [] ==> exists n :: n in s && n.fd == MaxFd(s)
  {
    if s != [] {
      MaxFdIs(s[1..]);
      assert s[0] in s;
      if MaxFd(s) != s[0].fd {
        var n :| n in s[1..] && n.fd == MaxFd(s[1..]);
        assert n in s;
      }
    }
  }

  lemma {:induction false} MaxFdAppend(a: seq<EvFile>, b: seq<EvFile>)
    ensures MaxFd(a + b) == if MaxFd(a) > MaxFd(b) then MaxFd(a) else MaxFd(b)
    ensures MaxFd(a) >= -1 && MaxFd(b) >= -1
  {
    if a == [] {
      assert a + b == b;
      if b != [] {
        MaxFdAppend([], b[1..]);
        assert [] + b[1..] == b[1..];
      }
    } else {
      assert (a + b)[1..] == a[1..] + b;
      MaxFdAppend(a[1..], b);
    }
  }

  /** Events wanted by the rest of the list from the first registration of `fd` on are all
      that are wanted. */
  lemma WantedFromFirst(a: seq<EvFile>, b: seq<EvFile>, fd: int)
    requires OnFd(a, fd) == []
    ensures Wanted(a + b, fd) == Wanted(b, fd)
  {
    WantedAppend(a, b, fd);
    NoneWanted(a, fd);
  }

  /** Splits a list in front of the first registration of a descriptor. */
  lemma {:induction false} SplitAtFirst(s: seq<EvFile>, fd: int) returns (k: nat)
    requires OnFd(s, fd) != []
    ensures k < |s| && s[k] == OnFd(s, fd)[0] && OnFd(s[..k], fd) == []
  {
    if s[0].fd == fd {
      k := 0;
    } else {
      var k' := SplitAtFirst(s[1..], fd);
      k := k' + 1;
      assert s[..k] == [s[0]] + s[1..][..k'];
      assert s[..k][1..] == s[1..][..k'];
    }
  }

  lemma AtEnds(n: EvFile, s: seq<EvFile>)
    ensures At([n] + s, -1) == null && At(s, -1) == null && At([n] + s, 0) == n && At([n] + s, 1) == At(s, 0)
    ensures At(s, 0) == if s == [] then null else s[0]
  {
  }

  lemma AtBehind(n: EvFile, s: seq<EvFile>, i: int)
    requires -1 <= i
    ensures At([n] + s, i + 1) == if i == -1 then n else At(s, i)
  {
  }

  lemma FrontApart(n: EvFile, s: seq<EvFile>)
    requires Distinct([n] + s)
    ensures forall i :: 0 <= i < |s| ==> s[i] != n && (i > 0 ==> s[i] != s[0])
  {
    var t := [n] + s;
    assert forall i :: 0 <= i < |s| ==> s[i] == t[i + 1] && t[i + 1] != t[0] && (i > 0 ==> t[i + 1] != t[1]);
  }

  lemma AroundApart(a: seq<EvFile>, n: EvFile, b: seq<EvFile>)
    requires Distinct(a + [n] + b)
    ensures forall i :: 0 <= i < |a| - 1 ==> a[i] != a[|a| - 1]
    ensures forall i :: 1 <= i < |b| ==> b[i] != b[0]
    ensures a != [] ==> forall i :: 0 <= i < |b| ==> b[i] != a[|a| - 1]
    ensures b != [] ==> forall i :: 0 <= i < |a| ==> a[i] != b[0]
    ensures (a != [] ==> n != a[|a| - 1]) && (b != [] ==> n != b[0])
  {
    var t := a + [n] + b;
    assert forall i :: 0 <= i < |a| ==> t[i] == a[i];
    assert t[|a|] == n;
    assert forall i :: 0 <= i < |b| ==> t[|a| + 1 + i] == b[i];
  }

  ghost function Opt(n: EvFile?): set<EvFile> {
    if n == null then {} else {n}
  }

  lemma SplitAround(s: seq<EvFile>, n: EvFile) returns (k: nat)
    requires n in s
    ensures k < |s| && s[k] == n && s == s[..k] + [n] + s[k + 1..]
  {
    k :| 0 <= k < |s| && s[k] == n;
  }

  /** One registration more or less changes one chain only. */
  lemma OnFdAround(a: seq<EvFile>, n: EvFile, b: seq<EvFile>, fd: int)
    ensures n.fd == fd ==> OnFd(a + [n] + b, fd) == OnFd(a, fd) + [n] + OnFd(b, fd)
    ensures n.fd != fd ==> OnFd(a + [n] + b, fd) == OnFd(a + b, fd)
    ensures OnFd(a + b, fd) == OnFd(a, fd) + OnFd(b, fd)
  {
    hide OnFd;
    assert a + [n] + b == a + ([n] + b);
    OnFdAppend(a, [n] + b, fd);
    OnFdFront(n, b, fd);
    OnFdAppend(a, b, fd);
  }

  lemma OnFdFront(n: EvFile, b: seq<EvFile>, fd: int)
    ensures OnFd([n] + b, fd) == if n.fd == fd then [n] + OnFd(b, fd) else OnFd(b, fd)
  {
    assert ([n] + b)[1..] == b;
  }

  lemma OnFdWithout(a: seq<EvFile>, n: EvFile, b: seq<EvFile>)
    ensures forall f :: f != n.fd ==> OnFd(a + b, f) == OnFd(a + [n] + b, f)
    ensures OnFd(a + [n] + b, n.fd) == OnFd(a, n.fd) + [n] + OnFd(b, n.fd)
      && OnFd(a + b, n.fd) == OnFd(a, n.fd) + OnFd(b, n.fd)
  {
    hide OnFd;
    forall f
      ensures f != n.fd ==> OnFd(a + b, f) == OnFd(a + [n] + b, f)
    {
      OnFdAround(a, n, b, f);
    }
    OnFdAround(a, n, b, n.fd);
  }

  lemma WantedFront(n: EvFile, b: seq<EvFile>, fd: int)
    ensures Wanted([n] + b, fd) == Or(if n.fd == fd then n.mask else NO_EVENTS, Wanted(b, fd))
  {
    assert ([n] + b)[1..] == b;
  }

  lemma WantedAround(a: seq<EvFile>, n: EvFile, b: seq<EvFile>, fd: int)
    ensures Wanted(a + [n] + b, fd) == Or(Wanted(a + b, fd), if n.fd == fd then n.mask else NO_EVENTS)
  {
    hide Wanted;
    assert a + [n] + b == a + ([n] + b);
    WantedAppend(a, [n] + b, fd);
    WantedFront(n, b, fd);
    WantedAppend(a, b, fd);
  }

  lemma MaxFdFront(n: EvFile, b: seq<EvFile>)
    ensures MaxFd([n] + b) == if n.fd > MaxFd(b) then n.fd else MaxFd(b)
  {
    assert ([n] + b)[1..] == b;
  }

  lemma ApartFront(n: EvFile, s: seq<EvFile>)
    requires Apart(s) && n !in s && n.mask != NO_EVENTS && n.fd >= 0 && !Common(n.mask, Wanted(s, n.fd))
    ensures Apart([n] + s)
  {
    WantedCommon(s, n.fd, n.mask);
    var t := [n] + s;
    forall i, j | 0 <= i < j < |t|
      ensures t[i] != t[j] && (t[i].fd == t[j].fd ==> !Common(t[i].mask, t[j].mask))
    {
      assert t[j] == s[j - 1];
    }
  }

  lemma EventsSome(mask: int)
    requires 0 < mask < 8
    ensures Events(mask) != NO_EVENTS
  {
  }

  lemma {:induction false} NoneWanted(s: seq<EvFile>, fd: int)
    ensures OnFd(s, fd) == [] ==> Wanted(s, fd) == NO_EVENTS
  {
    if s != [] {
      NoneWanted(s[1..], fd);
    }
  }

  lemma WantedFrom(s: seq<EvFile>, k: nat, fd: int)
    requires k <= |s| && OnFd(s[..k], fd) == []
    ensures Wanted(s[k..], fd) == Wanted(s, fd)
  {
    assert s[..k] + s[k..] == s;
    WantedFromFirst(s[..k], s[k..], fd);
  }

  lemma WantedStep(s: seq<EvFile>, k: nat, fd: int)
    requires k < |s|
    ensures Wanted(s[k..], fd) == Or(if s[k].fd == fd then s[k].mask else NO_EVENTS, Wanted(s[k + 1..], fd))
  {
    assert s[k..][1..] == s[k + 1..];
  }

  lemma WantedEnd(s: seq<EvFile>, fd: int)
    ensures Wanted(s[|s|..], fd) == NO_EVENTS
  {
  }

  lemma MaxFdStart(s: seq<EvFile>)
    ensures MaxFd(s[..0]) == -1 && s[..|s|] == s
  {
  }

  lemma MaxFdStep(s: seq<EvFile>, k: nat)
    requires k < |s|
    ensures MaxFd(s[..k + 1]) == if s[k].fd > MaxFd(s[..k]) then s[k].fd else MaxFd(s[..k])
  {
    assert s[..k + 1] == s[..k] + [s[k]] && [s[k]] + [] == [s[k]];
    MaxFdFront(s[k], []);
    MaxFdAppend(s[..k], [s[k]]);
  }

  lemma ApartDistinct(s: seq<EvFile>)
    requires Apart(s)
    ensures Distinct(s)
  {
  }

  ghost predicate Below(s: seq<EvFile>, max: int) {
    forall i :: 0 <= i < |s| ==> s[i].fd <= max
  }

  lemma BelowAround(a: seq<EvFile>, n: EvFile, b: seq<EvFile>, max: int)
    requires Below(a + [n] + b, max)
    ensures Below(a + b, max) && n.fd <= max
  {
    var s := a + [n] + b;
    assert s[|a|] == n;
    forall i | 0 <= i < |a + b|
      ensures (a + b)[i].fd <= max
    {
      assert (a + b)[i] == s[if i < |a| then i else i + 1];
    }
  }

  lemma StillIn(a: seq<EvFile>, n: EvFile, b: seq<EvFile>)
    ensures forall m :: m in a + [n] + b && m != n ==> m in a + b
    ensures b != [] ==> b[0] in a + b
  {
  }

  ghost predicate Bits(rd: set<int>, wr: set<int>, ex: set<int>, s: seq<EvFile>) {
    && (forall f :: f in rd <==> Wanted(s, f).read)
    && (forall f :: f in wr <==> Wanted(s, f).write)
    && (forall f :: f in ex <==> Wanted(s, f).except)
  }

  lemma BitsFront(rd: set<int>, wr: set<int>, ex: set<int>, n: EvFile, s: seq<EvFile>)
    requires Bits(rd, wr, ex, s)
    ensures Bits(if n.mask.read then rd + {n.fd} else rd, if n.mask.write then wr + {n.fd} else wr,
      if n.mask.except then ex + {n.fd} else ex, [n] + s)
  {
    hide Wanted;
    forall f
      ensures Wanted([n] + s, f) == Or(if n.fd == f then n.mask else NO_EVENTS, Wanted(s, f))
    {
      WantedFront(n, s, f);
    }
  }

  lemma BitsWithout(rd: set<int>, wr: set<int>, ex: set<int>, a: seq<EvFile>, n: EvFile, b: seq<EvFile>)
    requires Bits(rd, wr, ex, a + [n] + b)
    ensures var w := Wanted(a + b, n.fd);
      Bits(if w.read then rd else rd - {n.fd}, if w.write then wr else wr - {n.fd},
        if w.except then ex else ex - {n.fd}, a + b)
  {
    hide Wanted;
    forall f
      ensures Wanted(a + [n] + b, f) == Or(Wanted(a + b, f), if n.fd == f then n.mask else NO_EVENTS)
    {
      WantedAround(a, n, b, f);
    }
  }

  lemma ApartFds(s: seq<EvFile>, i: nat)
    requires Apart(s) && i < |s|
    ensures s[i].fd >= 0 && s[i].mask != NO_EVENTS
  {
  }

  /** The largest descriptor stays the largest when another one goes. */
  lemma MaxFdWithout(a: seq<EvFile>, n: EvFile, b: seq<EvFile>)
    ensures n.fd <= MaxFd(a + [n] + b)
    ensures n.fd < MaxFd(a + [n] + b) ==> MaxFd(a + b) == MaxFd(a + [n] + b)
  {
    hide MaxFd;
    assert a + [n] + b == a + ([n] + b);
    MaxFdAppend(a, [n] + b);
    MaxFdFront(n, b);
    MaxFdAppend(a, b);
  }

  lemma ApartAround(a: seq<EvFile>, n: EvFile, b: seq<EvFile>)
    requires Apart(a + [n] + b)
    ensures Apart(a + b) && Distinct(a + [n] + b) && n !in a + b
    ensures !Common(Wanted(a + b, n.fd), n.mask)
  {
    var s := a + [n] + b;
    forall i | 0 <= i < |a + b|
      ensures (a + b)[i] == s[if i < |a| then i else i + 1]
    {
    }
    assert s[|a|] == n;
    WantedCommon(a + b, n.fd, n.mask);
  }

  lemma {:induction false} OnFdDistinct(s: seq<EvFile>, fd: int)
    requires Distinct(s)
    ensures Distinct(OnFd(s, fd))
  {
    if s != [] {
      OnFdDistinct(s[1..], fd);
      assert s[0] !in s[1..];
    }
  }

  // ----- the links ------------------------------------------------------------------

  ghost predicate Linked(s: seq<EvFile>)
    reads s`prev, s`next
  {
    forall i :: 0 <= i < |s| ==> s[i].prev == At(s, i - 1) && s[i].next == At(s, i + 1)
  }

  ghost predicate FdLinked(s: seq<EvFile>)
    reads s`fdprev, s`fdnext
  {
    forall i :: 0 <= i < |s| ==> s[i].fdprev == At(s, i - 1) && s[i].fdnext == At(s, i + 1)
  }

  lemma NextIs(s: seq<EvFile>, k: nat)
    requires Linked(s) && k < |s|
    ensures s[k].next == At(s, k + 1)
  {
  }

  lemma Neighbours(s: seq<EvFile>, k: nat)
    requires Linked(s) && k < |s|
    ensures s[k].prev != null ==> s[k].prev in s
    ensures s[k].next != null ==> s[k].next in s
  {
  }

  lemma FdNextIs(s: seq<EvFile>, k: nat)
    requires FdLinked(s) && k < |s|
    ensures s[k].fdnext == At(s, k + 1)
  {
  }

  lemma FdNeighbours(s: seq<EvFile>, k: nat)
    requires FdLinked(s) && k < |s|
    ensures s[k].fdprev != null ==> s[k].fdprev in s
    ensures s[k].fdnext != null ==> s[k].fdnext in s
  {
  }

  /** Links that no one touched. */
  twostate lemma FdKept(s: seq<EvFile>)
    requires old(FdLinked(s)) && forall i :: 0 <= i < |s| ==>
      s[i].fdprev == old(s[i].fdprev) && s[i].fdnext == old(s[i].fdnext)
    ensures FdLinked(s)
  {
  }
}

/** Selecting and deselecting file descriptors. */
module EvFiles {
  import opened Basics
  import opened EvFilesSpec

  /** The open descriptors, and whether each is non-blocking. */
  class System {
    var nonblocking: map<nat, bool>

    constructor (modes: map<nat, bool>)
      ensures nonblocking == modes
    {
      nonblocking := modes;
    }
  }

  /** The sets for the next `select`, those with the results of the last one, and the number of
      results still waiting. */
  datatype Sets = Sets(rdNext: set<int>, wrNext: set<int>, exNext: set<int>,
    rdLast: set<int>, wrLast: set<int>, exLast: set<int>, fdCount: int)

  /** The descriptor enters the sets of its events. */
  function With(s: Sets, fd: int, events: Mask): Sets {
    s.(rdNext := if events.read then s.rdNext + {fd} else s.rdNext,
      wrNext := if events.write then s.wrNext + {fd} else s.wrNext,
      exNext := if events.except then s.exNext + {fd} else s.exNext)
  }

  /** The descriptor leaves the sets of all events but these. */
  function Without(s: Sets, fd: int, events: Mask): Sets {
    Sets(if events.read then s.rdNext else s.rdNext - {fd},
      if events.write then s.wrNext else s.wrNext - {fd},
      if events.except then s.exNext else s.exNext - {fd},
      if events.read then s.rdLast else s.rdLast - {fd},
      if events.write then s.wrLast else s.wrLast - {fd},
      if events.except then s.exLast else s.exLast - {fd},
      s.fdCount - (if fd in s.rdLast && !events.read then 1 else 0)
        - (if fd in s.wrLast && !events.write then 1 else 0)
        - (if fd in s.exLast && !events.except then 1 else 0))
  }

  /** The number of results still waiting and the sets that hold them change together. */
  lemma WithoutKeepsCount(s: Sets, fd: int, events: Mask)
    ensures var t := Without(s, fd, events);
      t.fdCount - |t.rdLast| - |t.wrLast| - |t.exLast| == s.fdCount - |s.rdLast| - |s.wrLast| - |s.exLast|
  {
    OneLess(s.rdLast, fd);
    OneLess(s.wrLast, fd);
    OneLess(s.exLast, fd);
  }

  lemma OneLess(s: set<int>, fd: int)
    ensures |s - {fd}| == |s| - if fd in s then 1 else 0
  {
    if fd !in s {
      assert s - {fd} == s;
    }
  }

  datatype Outcome = Done | EINVAL | EBADF | ETOOMANYREFS

  class EvContext {
    var files: EvFile?
    var fdNext: EvFile?
    const fdTable: array<EvFile?>
    var rdNext: set<int>
    var wrNext: set<int>
    var exNext: set<int>
    var rdLast: set<int>
    var wrLast: set<int>
    var exLast: set<int>
    var nonblockBefore: set<int>
    var fdMax: int
    var fdCount: int
    const highestFD: int
    const sys: System

    /** The registrations, in the order of `files`. */
    ghost var list: seq<EvFile>
    /** For each registered descriptor, whether it was non-blocking before. */
    ghost var before: map<int, bool>

    constructor (sys: System, setSize: nat)
      ensures Valid() && list == [] && this.sys == sys && fresh(fdTable) && highestFD == setSize - 1
      ensures rdLast == wrLast == exLast == {} && fdCount == 0
    {
      this.sys := sys;
      highestFD := setSize - 1;
      fdTable := new EvFile?[setSize](_ => null);
      files, fdNext := null, null;
      rdNext, wrNext, exNext, rdLast, wrLast, exLast, nonblockBefore := {}, {}, {}, {}, {}, {}, {};
      fdMax, fdCount := -1, 0;
      list, before := [], map[];
    }

    /** Both threadings follow the list. */
    ghost predicate Threaded()
      reads this`files, this`list, fdTable, list`prev, list`next, list`fdprev, list`fdnext
    {
      files == At(list, 0) && Linked(list) && Chained(list)
    }

    /** The table holds the chains of the registrations `s`. */
    ghost predicate Chained(s: seq<EvFile>)
      reads fdTable, s`fdprev, s`fdnext
    {
      && (forall f :: 0 <= f < fdTable.Length ==> fdTable[f] == At(OnFd(s, f), 0))
      && (forall f :: 0 <= f < fdTable.Length ==> FdLinked(OnFd(s, f)))
    }

    /** The sets for `select` say what the registrations `s` want. */
    ghost predicate Tells(s: seq<EvFile>)
      reads this`rdNext, this`wrNext, this`exNext, this`fdMax
    {
      Bits(rdNext, wrNext, exNext, s) && fdMax == MaxFd(s)
    }

    ghost function AllSets(): Sets
      reads this`rdNext, this`wrNext, this`exNext, this`rdLast, this`wrLast, this`exLast, this`fdCount
    {
      Sets(rdNext, wrNext, exNext, rdLast, wrLast, exLast, fdCount)
    }

    ghost predicate Told()
      reads this`list, this`rdNext, this`wrNext, this`exNext, this`fdMax, this`fdNext
    {
      Tells(list) && (fdNext != null ==> fdNext in list)
    }

    ghost predicate Remembered()
      reads this`list, this`before, this`nonblockBefore
    {
      && (forall f :: f in before <==> OnFd(list, f) != [])
      && (forall f :: f in before ==> (f in nonblockBefore <==> before[f]))
    }

    ghost predicate Valid()
      reads this, fdTable, list
    {
      && fdTable.Length == highestFD + 1
      && Apart(list) && Below(list, highestFD)
      && Threaded() && Told() && Remembered()
    }

    /** No one else has made a registered descriptor blocking. */
    ghost predicate NoneBlocks()
      reads this`before, sys
    {
      forall f :: f in before && f in sys.nonblocking ==> sys.nonblocking[f]
    }

    lemma ChainAt(fd: int)
      requires Threaded() && 0 <= fd < fdTable.Length
      ensures fdTable[fd] == At(OnFd(list, fd), 0) && FdLinked(OnFd(list, fd))
    {
    }

    /** The descriptor, if it is open, has the mode. */
    ghost predicate HasMode(fd: int, mode: bool)
      reads sys
    {
      fd in sys.nonblocking ==> sys.nonblocking[fd] == mode
    }

    /** The first registration of the descriptor for any of the events. */
    method FindFD(fd: int, events: Mask) returns (id: EvFile?)
      requires Threaded() && 0 <= fd < fdTable.Length
      ensures id != null ==> id in OnFd(list, fd) && Meets(id, events)
      ensures id == null <==> !Common(Wanted(list, fd), events)
      ensures Apart(list) && events == ALL_EVENTS ==> id == At(OnFd(list, fd), 0)
    {
      hide OnFd, Wanted, Meets, Threaded, Apart, FdLinked;
      ghost var chain := OnFd(list, fd);
      ghost var k := 0;
      ChainMeets(list, fd, events);
      if Apart(list) {
        AllMeet(list, fd);
      }
      ChainAt(fd);
      id := fdTable[fd];
      while id != null && !(id.fd == fd && Meets(id, events))
        invariant 0 <= k <= |chain| && id == At(chain, k)
        invariant forall i :: 0 <= i < k ==> !Meets(chain[i], events)
        decreases |chain| - k
      {
        FdNextIs(chain, k);
        id := id.fdnext;
        k := k + 1;
      }
    }

    /** Puts a new registration at the head of the list. */
    method LinkFront(id: EvFile, ghost s: seq<EvFile>)
      requires files == At(s, 0) && Linked(s) && Distinct([id] + s)
      modifies this`files, id`prev, id`next, Opt(files)`prev
      ensures files == id && Linked([id] + s)
    {
      hide Distinct, At;
      AtEnds(id, s);
      FrontApart(id, s);
      if files != null {
        files.prev := id;
      }
      id.prev := null;
      id.next := files;
      files := id;
      forall i | 0 <= i < |s|
        ensures s[i].prev == At([id] + s, i) && s[i].next == At([id] + s, i + 2)
      {
        AtBehind(id, s, i - 1);
        AtBehind(id, s, i + 1);
        assert s[i] != id && (i > 0 ==> s[i] != s[0]);
      }
    }

    /** Puts it at the head of the chain of its descriptor. */
    method FdLinkFront(id: EvFile, ghost chain: seq<EvFile>)
      requires 0 <= id.fd < fdTable.Length && fdTable[id.fd] == At(chain, 0) && FdLinked(chain)
        && Distinct([id] + chain)
      modifies fdTable, id`fdprev, id`fdnext, Opt(fdTable[id.fd])`fdprev
      ensures fdTable[..] == old(fdTable[..])[id.fd := id] && FdLinked([id] + chain)
    {
      hide Distinct;
      FrontApart(id, chain);
      if fdTable[id.fd] != null {
        fdTable[id.fd].fdprev := id;
      }
      id.fdprev := null;
      id.fdnext := fdTable[id.fd];
      fdTable[id.fd] := id;
      forall i | 0 <= i < |chain|
        ensures chain[i].fdprev == At([id] + chain, i) && chain[i].fdnext == At([id] + chain, i + 2)
      {
      }
    }

    /** Takes a registration out of the list. */
    method Unlink(del: EvFile, ghost a: seq<EvFile>, ghost b: seq<EvFile>)
      requires files == At(a + [del] + b, 0) && Linked(a + [del] + b) && Distinct(a + [del] + b)
      modifies this`files, Opt(del.prev)`next, Opt(del.next)`prev
      ensures files == At(a + b, 0) && Linked(a + b)
      ensures del.next == old(del.next) == At(b, 0)
    {
      hide Distinct;
      AroundApart(a, del, b);
      ghost var s := a + [del] + b;
      assert s[|a|] == del;
      assert del.prev == At(a, |a| - 1) && del.next == At(b, 0);
      if del.prev != null {
        del.prev.next := del.next;
      } else {
        files := del.next;
      }
      if del.next != null {
        del.next.prev := del.prev;
      }
      forall i | 0 <= i < |a|
        ensures (a + b)[i].prev == At(a + b, i - 1) && (a + b)[i].next == At(a + b, i + 1)
      {
        assert s[i] == a[i] && (a + b)[i] == a[i];
      }
      forall i | |a| <= i < |a + b|
        ensures (a + b)[i].prev == At(a + b, i - 1) && (a + b)[i].next == At(a + b, i + 1)
      {
        assert s[i + 1] == b[i - |a|] && (a + b)[i] == b[i - |a|];
      }
    }

    /** Takes it out of the chain of its descriptor. */
    method FdUnlink(del: EvFile, ghost a: seq<EvFile>, ghost b: seq<EvFile>)
      requires 0 <= del.fd < fdTable.Length && fdTable[del.fd] == At(a + [del] + b, 0)
      requires FdLinked(a + [del] + b) && Distinct(a + [del] + b)
      modifies fdTable, Opt(del.fdprev)`fdnext, Opt(del.fdnext)`fdprev
      ensures fdTable[..] == old(fdTable[..])[del.fd := At(a + b, 0)] && FdLinked(a + b)
    {
      hide Distinct;
      AroundApart(a, del, b);
      ghost var s := a + [del] + b;
      assert s[|a|] == del;
      assert del.fdprev == At(a, |a| - 1) && del.fdnext == At(b, 0);
      if del.fdprev != null {
        del.fdprev.fdnext := del.fdnext;
      } else {
        fdTable[del.fd] := del.fdnext;
      }
      if del.fdnext != null {
        del.fdnext.fdprev := del.fdprev;
      }
      forall i | 0 <= i < |a|
        ensures (a + b)[i].fdprev == At(a + b, i - 1) && (a + b)[i].fdnext == At(a + b, i + 1)
      {
        assert s[i] == a[i] && (a + b)[i] == a[i];
      }
      forall i | |a| <= i < |a + b|
        ensures (a + b)[i].fdprev == At(a + b, i - 1) && (a + b)[i].fdnext == At(a + b, i + 1)
      {
        assert s[i + 1] == b[i - |a|] && (a + b)[i] == b[i - |a|];
      }
    }

    /** The chains, with a new registration. */
    method Enchain(id: EvFile, ghost s: seq<EvFile>)
      requires Chained(s) && Distinct([id] + s) && 0 <= id.fd < fdTable.Length
      modifies fdTable, id`fdprev, id`fdnext, s`fdprev
      ensures Chained([id] + s)
    {
      hide FdLinked, OnFd, Distinct;
      ghost var fd := id.fd;
      OnFdDistinct([id] + s, fd);
      forall f
        ensures OnFd([id] + s, f) == if fd == f then [id] + OnFd(s, f) else OnFd(s, f)
      {
        OnFdFront(id, s, f);
      }
      FdLinkFront(id, OnFd(s, fd));
      forall f | 0 <= f < fdTable.Length && f != fd
        ensures FdLinked(OnFd(s, f))
      {
        assert old(FdLinked(OnFd(s, f)));
        FdKept(OnFd(s, f));
      }
    }

    method Thread(id: EvFile)
      requires Threaded() && Distinct([id] + list) && 0 <= id.fd < fdTable.Length
      modifies this`files, this`list, fdTable, id`prev, id`next, id`fdprev, id`fdnext, list`prev, list`fdprev
      ensures list == [id] + old(list) && Threaded()
    {
      hide Linked, FdLinked, OnFd, Distinct;
      LinkFront(id, list);
      Enchain(id, list);
      list := [id] + list;
    }

    /** The chains, when `del` goes. */
    method Unchain(del: EvFile, ghost a: seq<EvFile>, ghost b: seq<EvFile>)
      requires Chained(a + [del] + b) && Distinct(a + [del] + b) && 0 <= del.fd < fdTable.Length
      modifies fdTable, (a + [del] + b)`fdprev, (a + [del] + b)`fdnext
      ensures Chained(a + b)
    {
      hide FdLinked, OnFd, Distinct;
      ghost var s, fd := a + [del] + b, del.fd;
      OnFdDistinct(s, fd);
      OnFdWithout(a, del, b);
      FdNeighbours(OnFd(s, fd), |OnFd(a, fd)|);
      FdUnlink(del, OnFd(a, fd), OnFd(b, fd));
      forall f | 0 <= f < fdTable.Length && f != fd
        ensures FdLinked(OnFd(s, f))
      {
        assert old(FdLinked(OnFd(s, f)));
        FdKept(OnFd(s, f));
      }
    }

    method Unthread(del: EvFile, ghost a: seq<EvFile>, ghost b: seq<EvFile>)
      requires Threaded() && list == a + [del] + b && Distinct(list) && 0 <= del.fd < fdTable.Length
      modifies this`files, this`list, fdTable, list`prev, list`next, list`fdprev, list`fdnext
      ensures list == a + b && Threaded()
      ensures del.next == At(b, 0)
    {
      hide Linked, FdLinked, OnFd, Distinct;
      Neighbours(list, |a|);
      Unlink(del, a, b);
      Unchain(del, a, b);
      list := a + b;
    }

    /** The sets for `select`, for a new registration. */
    method Tell(id: EvFile, ghost s: seq<EvFile>)
      requires Tells(s)
      modifies this`rdNext, this`wrNext, this`exNext, this`fdMax
      ensures Tells([id] + s)
      ensures AllSets() == With(old(AllSets()), id.fd, id.mask)
        && fdMax == (if id.fd > old(fdMax) then id.fd else old(fdMax))
    {
      hide Wanted, MaxFd, Bits;
      BitsFront(rdNext, wrNext, exNext, id, s);
      MaxFdFront(id, s);
      if id.mask.read {
        rdNext := rdNext + {id.fd};
      }
      if id.mask.write {
        wrNext := wrNext + {id.fd};
      }
      if id.mask.except {
        exNext := exNext + {id.fd};
      }
      if id.fd > fdMax {
        fdMax := id.fd;
      }
    }

    /** Threads a new registration and tells the sets of it. */
    method Enter(fd: int, events: Mask) returns (id: EvFile)
      requires Apart(list) && Threaded() && Told() && fdTable.Length == highestFD + 1 && 0 <= fd <= highestFD
      requires Below(list, highestFD)
      requires events != NO_EVENTS && !Common(events, Wanted(list, fd))
      requires (forall f :: f in before <==> f == fd || OnFd(list, f) != [])
      requires (forall f :: f in before ==> (f in nonblockBefore <==> before[f]))
      modifies this`files, this`list, this`rdNext, this`wrNext, this`exNext, this`fdMax, fdTable, list`prev, list`fdprev
      ensures Valid() && list == [id] + old(list) && fresh(id) && id.fd == fd && id.mask == events
      ensures AllSets() == With(old(AllSets()), fd, events) && fdMax == (if fd > old(fdMax) then fd else old(fdMax))
    {
      hide Wanted, OnFd, MaxFd, Apart, Threaded, With, AllSets;
      ghost var s := list;
      id := new EvFile(fd, events);
      ApartFront(id, s);
      ApartDistinct([id] + s);
      Thread(id);
      Tell(id, s);
      forall f
        ensures OnFd(list, f) != [] <==> f == fd || OnFd(s, f) != []
      {
        OnFdFront(id, s, f);
      }
    }

    /** Remembers the mode of a descriptor, which becomes non-blocking. */
    method FirstTouch(fd: int, mode: bool)
      requires fd in sys.nonblocking && mode == sys.nonblocking[fd]
      requires forall f :: f in before ==> (f in nonblockBefore <==> before[f])
      modifies this`nonblockBefore, this`before, sys
      ensures before == old(before)[fd := mode] && sys.nonblocking == old(sys.nonblocking)[fd := true]
      ensures forall f :: f in before ==> (f in nonblockBefore <==> before[f])
      ensures old(NoneBlocks()) ==> NoneBlocks()
    {
      if mode {
        nonblockBefore := nonblockBefore + {fd};
        assert sys.nonblocking == sys.nonblocking[fd := true];
      } else {
        sys.nonblocking := sys.nonblocking[fd := true];
        nonblockBefore := nonblockBefore - {fd};
      }
      before := before[fd := mode];
    }

    lemma SetsTell(fd: int)
      requires Told()
      ensures Wanted(list, fd) == Mask(fd in rdNext, fd in wrNext, fd in exNext)
    {
    }

    /** Registers the descriptor unless an event is wanted already. */
    method Register(fd: int, events: Mask, mode: bool) returns (id: EvFile?)
      requires Valid() && fd in sys.nonblocking && mode == sys.nonblocking[fd] && fd <= highestFD && events != NO_EVENTS
      modifies this, fdTable, sys, list`prev, list`fdprev
      ensures Valid()
      ensures id == null <==> Common(old(Wanted(list, fd)), events)
      ensures id == null ==> unchanged(this) && unchanged(sys)
      ensures id != null ==> fresh(id) && id.fd == fd && id.mask == events && list == [id] + old(list)
      ensures old(Wanted(list, fd)) == Mask(fd in old(rdNext), fd in old(wrNext), fd in old(exNext))
      ensures id != null ==>
        AllSets() == With(old(AllSets()), fd, events) && fdMax == (if fd > old(fdMax) then fd else old(fdMax))
      ensures old(OnFd(list, fd)) == [] ==>
        before == old(before)[fd := mode] && sys.nonblocking == old(sys.nonblocking)[fd := true]
      ensures old(OnFd(list, fd)) != [] ==> before == old(before) && unchanged(sys)
      ensures old(NoneBlocks()) ==> NoneBlocks()
      ensures rdLast == old(rdLast) && wrLast == old(wrLast) && exLast == old(exLast) && fdCount == old(fdCount)
        && fdNext == old(fdNext)
    {
      hide Wanted, OnFd, MaxFd, Apart, Threaded, Meets, Told, NoneBlocks, With, AllSets;
      NoneWanted(list, fd);
      SetsTell(fd);
      id := FindFD(fd, ALL_EVENTS);
      if id == null {
        FirstTouch(fd, mode);
      }
      if id != null {
        var same := FindFD(fd, events);
        if same != null {
          return null;
        }
      }
      id := Enter(fd, events);
    }

    /** `evSelectFD`. */
    method SelectFD(fd: int, eventmask: int) returns (r: Outcome, id: EvFile?)
      requires Valid()
      modifies this, fdTable, sys, list`prev, list`fdprev
      ensures r == if eventmask <= 0 || eventmask >= 8 || fd > highestFD then EINVAL
        else if fd !in old(sys.nonblocking) then EBADF
        else if Common(old(Wanted(list, fd)), Events(eventmask)) then ETOOMANYREFS else Done
      ensures Valid()
      ensures r == ETOOMANYREFS ==>
        || (eventmask in {1, 3, 5, 7} && fd in old(rdNext))
        || (eventmask in {2, 3, 6, 7} && fd in old(wrNext))
        || (eventmask in {4, 5, 6, 7} && fd in old(exNext))
      ensures r != Done ==> id == null && unchanged(this) && unchanged(sys)
      ensures r == Done ==>
        id != null && fresh(id) && id.fd == fd && id.mask == Events(eventmask) && list == [id] + old(list)
      ensures r == Done ==>
        && (if eventmask in {1, 3, 5, 7} then fd !in old(rdNext) && rdNext == old(rdNext) + {fd}
          else rdNext == old(rdNext))
        && (if eventmask in {2, 3, 6, 7} then fd !in old(wrNext) && wrNext == old(wrNext) + {fd}
          else wrNext == old(wrNext))
        && (if eventmask in {4, 5, 6, 7} then fd !in old(exNext) && exNext == old(exNext) + {fd}
          else exNext == old(exNext))
        && fdMax == (if fd > old(fdMax) then fd else old(fdMax))
      ensures r == Done && (forall n :: n in old(list) ==> n.fd != fd) ==>
        before == old(before)[fd := old(sys.nonblocking)[fd]] && sys.nonblocking == old(sys.nonblocking)[fd := true]
      ensures (exists n :: n in old(list) && n.fd == fd) ==> before == old(before) && unchanged(sys)
      ensures old(NoneBlocks()) ==> NoneBlocks()
      ensures rdLast == old(rdLast) && wrLast == old(wrLast) && exLast == old(exLast) && fdCount == old(fdCount)
        && fdNext == old(fdNext)
    {
      WantedIs(list, fd);
      hide Valid, Wanted, OnFd, Events, NoneBlocks;
      if eventmask <= 0 || eventmask >= 8 || fd > highestFD {
        return EINVAL, null;
      }
      if fd !in sys.nonblocking {
        return EBADF, null;
      }
      EventsSome(eventmask);
      EventBits(eventmask);
      id := Register(fd, Events(eventmask), sys.nonblocking[fd]);
      r := if id == null then ETOOMANYREFS else Done;
    }

    /** The events still wanted of a descriptor, collected from the first of its
        registrations on; the walk ends early when nothing can be added. */
    method StillWanted(cur0: EvFile?, fd: int) returns (events: Mask)
      requires Linked(list) && cur0 == At(OnFd(list, fd), 0)
      ensures events == Wanted(list, fd)
    {
      hide Linked, OnFd, Wanted;
      events := NO_EVENTS;
      var cur := cur0;
      NoneWanted(list, fd);
      if cur == null {
        return;
      }
      ghost var k := SplitAtFirst(list, fd);
      WantedFrom(list, k, fd);
      while cur != null && events != ALL_EVENTS
        invariant 0 <= k <= |list| && cur == At(list, k)
        invariant Or(events, Wanted(list[k..], fd)) == Wanted(list, fd)
        decreases |list| - k
      {
        WantedStep(list, k, fd);
        if cur.fd == fd {
          events := Or(events, cur.mask);
        }
        NextIs(list, k);
        cur := cur.next;
        k := k + 1;
      }
      WantedEnd(list, fd);
    }

    /** The largest registered descriptor, or -1. */
    method LargestFD() returns (m: int)
      requires Linked(list) && files == At(list, 0)
      ensures m == MaxFd(list)
    {
      hide Linked, MaxFd;
      m := -1;
      var cur := files;
      ghost var k := 0;
      MaxFdStart(list);
      while cur != null
        invariant 0 <= k <= |list| && cur == At(list, k) && m == MaxFd(list[..k])
        decreases |list| - k
      {
        MaxFdStep(list, k);
        if cur.fd > m {
          m := cur.fd;
        }
        NextIs(list, k);
        cur := cur.next;
        k := k + 1;
      }
    }

    /** One of the three results of `select` without the descriptor. */
    method Drop(last0: set<int>, fd: int) returns (last: set<int>)
      modifies this`fdCount
      ensures last == last0 - {fd} && fdCount == old(fdCount) - if fd in last0 then 1 else 0
    {
      last := last0;
      if fd in last0 {
        last := last0 - {fd};
        fdCount := fdCount - 1;
      }
    }

    /** Clears the bits of one descriptor for events no longer wanted, also where a result
        of `select` is still waiting. */
    method Untell(fd: int, events: Mask)
      modifies this`rdNext, this`wrNext, this`exNext, this`rdLast, this`wrLast, this`exLast, this`fdCount
      ensures AllSets() == Without(old(AllSets()), fd, events)
    {
      if !events.read {
        rdNext := rdNext - {fd};
        rdLast := Drop(rdLast, fd);
      }
      if !events.write {
        wrNext := wrNext - {fd};
        wrLast := Drop(wrLast, fd);
      }
      if !events.except {
        exNext := exNext - {fd};
        exLast := Drop(exLast, fd);
      }
    }

    /** The sets for `select`, when `del` has gone. */
    method Retell(del: EvFile, cur: EvFile?, ghost a: seq<EvFile>, ghost b: seq<EvFile>)
      requires list == a + b && Linked(list) && files == At(list, 0) && cur == At(OnFd(list, del.fd), 0)
      requires Tells(a + [del] + b)
      modifies this`rdNext, this`wrNext, this`exNext, this`rdLast, this`wrLast, this`exLast, this`fdCount, this`fdMax
      ensures Tells(list)
      ensures AllSets() == Without(old(AllSets()), del.fd, Wanted(list, del.fd))
    {
      hide Wanted, OnFd, MaxFd, Linked, Bits;
      BitsWithout(rdNext, wrNext, exNext, a, del, b);
      var events := StillWanted(cur, del.fd);
      Untell(del.fd, events);
      MaxFdWithout(a, del, b);
      if del.fd == fdMax {
        fdMax := LargestFD();
      }
    }

    /** The descriptor gets its mode back with its last registration. */
    method Restore(fd: int, open: bool, last: bool)
      requires open ==> fd in sys.nonblocking
      requires fd in before && (fd in nonblockBefore <==> before[fd])
      modifies this`before, sys
      ensures before == if last then old(before) - {fd} else old(before)
      ensures sys.nonblocking == if last && open && !old(before)[fd] then old(sys.nonblocking)[fd := false]
        else old(sys.nonblocking)
      ensures old(NoneBlocks()) ==> NoneBlocks() && (last && open ==> HasMode(fd, old(before)[fd]))
    {
      if last && fd !in nonblockBefore && open {
        sys.nonblocking := sys.nonblocking[fd := false];
      }
      if last {
        before := before - {fd};
      }
    }

    /** Takes the registration out of both lists and restores the mode. */
    method Withdraw(del: EvFile, ghost a: seq<EvFile>, ghost b: seq<EvFile>) returns (cur: EvFile?)
      requires Valid() && list == a + [del] + b
      modifies this`files, this`list, this`before, sys, fdTable, list`prev, list`next, list`fdprev, list`fdnext
      ensures list == a + b && Threaded() && Apart(list) && Below(list, highestFD) && Remembered()
        && del.next == At(b, 0)
      ensures cur == At(OnFd(list, del.fd), 0) && del.fd in old(before)
      ensures sys.nonblocking == if cur == null && del.fd in old(sys.nonblocking)
        && !old(before)[del.fd] then old(sys.nonblocking)[del.fd := false] else old(sys.nonblocking)
      ensures before == if cur == null then old(before) - {del.fd} else old(before)
      ensures old(NoneBlocks()) ==> NoneBlocks() && (cur == null ==> HasMode(del.fd, old(before)[del.fd]))
    {
      hide OnFd, Apart, Distinct, Chained, Linked, Told, NoneBlocks, Below;
      var fd := del.fd;
      assert list[|a|] == del;
      assert 0 <= fd by {
        ApartFds(list, |a|);
      }
      ApartAround(a, del, b);
      BelowAround(a, del, b, highestFD);
      forall f
        ensures OnFd(a + [del] + b, f) != [] <==> f == fd || OnFd(a + b, f) != []
      {
        OnFdAround(a, del, b, f);
      }
      Unthread(del, a, b);
      cur := FindFD(fd, ALL_EVENTS);
      Restore(fd, fd in sys.nonblocking, cur == null);
    }

    /** `evDeselectFD`. */
    method DeselectFD(del: EvFile?) returns (ok: bool, ghost a: seq<EvFile>, ghost b: seq<EvFile>)
      requires Valid() && (del != null ==> del in list)
      modifies this, fdTable, sys, list`prev, list`next, list`fdprev, list`fdnext
      ensures Valid() && ok == (del != null)
      ensures !ok ==> unchanged(this) && unchanged(sys)
      ensures ok ==> old(list) == a + [del] + b && list == a + b && del.fd in old(before)
      ensures ok ==>
        sys.nonblocking == if OnFd(list, del.fd) == [] && del.fd in old(sys.nonblocking)
        && !old(before)[del.fd] then old(sys.nonblocking)[del.fd := false] else old(sys.nonblocking)
      ensures ok ==> before == if OnFd(list, del.fd) == [] then old(before) - {del.fd} else old(before)
      ensures ok && OnFd(list, del.fd) == [] && old(NoneBlocks()) ==> HasMode(del.fd, old(before)[del.fd])
      ensures old(NoneBlocks()) ==> NoneBlocks()
      ensures ok ==> fdNext == if old(fdNext) == del then At(b, 0) else old(fdNext)
      ensures ok ==> AllSets() == Without(old(AllSets()), del.fd, Wanted(list, del.fd))
    {
      hide Wanted, OnFd, MaxFd, Apart, Distinct, Chained, Linked, Remembered, Tells, Below, NoneBlocks, Without,
        AllSets;
      a, b := [], [];
      if del == null {
        return false, a, b;
      }
      ghost var k := SplitAround(list, del);
      a, b := list[..k], list[k + 1..];
      StillIn(a, del, b);
      var cur := Withdraw(del, a, b);
      Retell(del, cur, a, b);
      if del == fdNext {
        fdNext := del.next;
      }
      ok := true;
    }
  }
}
