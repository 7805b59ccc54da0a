/** What a walk reports, told without walking: names that lead from a root down to a file. */
module FtsReports {
  import opened Basics
  import opened FtsWalk

  /** Without `seedot` the entries for a directory itself and for the one above are not shown;
      all others are. */
  ghost predicate Visible(o: Options, name: string) {
    o.seedot || (name != "." && name != "..")
  }

  /** An entry as it is when it has been looked at. */
  function KidFor(fs: FileSys, o: Options, above: seq<Ino>, path: string, n: Entry): Kid {
    var l := Look(fs, o.logical, n.ino);
    Kid(Join(path, n.name), StatInfo(l, n.name, above), LookIno(l))
  }

  /** The entries that are visible, in order. */
  ghost function VisibleOf(o: Options, es: seq<Entry>): (r: seq<Entry>)
    ensures forall e :: e in r <==> e in es && Visible(o, e.name)
  {
    if es == [] then [] else (if Visible(o, es[0].name) then [es[0]] else []) + VisibleOf(o, es[1..])
  }

  /** With or without the shortcut, a directory is read entry by entry. */
  lemma {:induction false} KidsAreVisible(fs: FileSys, o: Options, above: seq<Ino>, path: string, es: seq<Entry>,
                                          nlinks: int)
    ensures var ks, vs := Kids(fs, o, above, path, es, nlinks), VisibleOf(o, es);
      |ks| == |vs| && forall k :: 0 <= k < |ks| ==> ks[k].path == Join(path, vs[k].name)
    decreases |es|
  {
    hide Kids, Join, VisibleOf;
    VisibleStep(o, es);
    if es == [] {
      NoKids(fs, o, above, path, nlinks);
    } else {
      var k, left := KidsStep(fs, o, above, path, es, nlinks);
      KidsAreVisible(fs, o, above, path, es[1..], left);
    }
  }

  lemma NoKids(fs: FileSys, o: Options, above: seq<Ino>, path: string, nlinks: int)
    ensures Kids(fs, o, above, path, [], nlinks) == []
  {
  }

  lemma VisibleStep(o: Options, es: seq<Entry>)
    ensures VisibleOf(o, es)
      == if es == [] then [] else (if Visible(o, es[0].name) then [es[0]] else []) + VisibleOf(o, es[1..])
  {
  }

  /** One entry, and the links that are left for the others. */
  lemma KidsStep(fs: FileSys, o: Options, above: seq<Ino>, path: string, es: seq<Entry>, nlinks: int)
    returns (k: Kid, left: int)
    requires es != []
    ensures Kids(fs, o, above, path, es, nlinks)
      == (if Visible(o, es[0].name) then [k] else []) + Kids(fs, o, above, path, es[1..], left)
    ensures k.path == Join(path, es[0].name)
    ensures !Visible(o, es[0].name) ==> left == nlinks
    ensures Visible(o, es[0].name) ==>
      && k == KidAs(fs, o, above, path, es[0], 0, nlinks)
      && left == nlinks - if nlinks > 0 && (k.info == D || k.info == DC || k.info == DOT) then 1 else 0
  {
    hide StatInfo, Look, LookIno, Join;
    var l := Look(fs, o.logical, es[0].ino);
    var info := StatInfo(l, es[0].name, above);
    if !Visible(o, es[0].name) {
      k, left := Kid(Join(path, es[0].name), NSOK, 0), nlinks;
      assert [] + Kids(fs, o, above, path, es[1..], left) == Kids(fs, o, above, path, es[1..], left);
    } else if Skipped(o, es[0], nlinks) {
      k, left := Kid(Join(path, es[0].name), NSOK, 0), nlinks;
    } else {
      k := Kid(Join(path, es[0].name), info, LookIno(l));
      left := if nlinks > 0 && IsDirInfo(info) then nlinks - 1 else nlinks;
    }
  }

  /** The directories among entries that have been looked at, cycles and dot entries included. */
  function DirsSeen(ks: seq<Kid>): nat {
    if ks == [] then 0
    else
      var last := ks[|ks| - 1].info;
      DirsSeen(ks[..|ks| - 1]) + if last == D || last == DC || last == DOT then 1 else 0
  }

  lemma {:induction false} DirsSeenCons(k: Kid, ks: seq<Kid>)
    ensures DirsSeen([k] + ks) == DirsSeen(ks) + if k.info == D || k.info == DC || k.info == DOT then 1 else 0
  {
    var s := [k] + ks;
    if ks == [] {
      assert s == [k] && [k][..0] == [];
    } else {
      assert s[..|s| - 1] == [k] + ks[..|ks| - 1];
      DirsSeenCons(k, ks[..|ks| - 1]);
    }
  }

  /** An entry is not looked at exactly if its type says that it is no directory, or if as many
      directories have been seen before it as there are links; otherwise it is as it is. */
  function KidAs(fs: FileSys, o: Options, above: seq<Ino>, path: string, v: Entry, seen: nat, nlinks: int): Kid {
    if (o.nostat && !o.logical && v.dtype == DtOther) || seen == nlinks then Kid(Join(path, v.name), NSOK, 0)
    else KidFor(fs, o, above, path, v)
  }

  ghost predicate LookedAt(fs: FileSys, o: Options, above: seq<Ino>, path: string, vs: seq<Entry>, nlinks: int,
                           ks: seq<Kid>)
  {
    |ks| == |vs| && forall k :: 0 <= k < |ks| ==> ks[k] == KidAs(fs, o, above, path, vs[k], DirsSeen(ks[..k]), nlinks)
  }

  lemma OneLinkLess(fs: FileSys, o: Options, above: seq<Ino>, path: string, v: Entry, seen: nat, nlinks: int, d: nat)
    requires d == 0 || nlinks != 0
    ensures KidAs(fs, o, above, path, v, seen + d, nlinks)
      == KidAs(fs, o, above, path, v, seen, if nlinks > 0 then nlinks - d else nlinks)
  {
  }

  lemma LookedAtCons(fs: FileSys, o: Options, above: seq<Ino>, path: string, e: Entry, vs: seq<Entry>, nlinks: int,
                     k: Kid, ks: seq<Kid>, left: int)
    requires LookedAt(fs, o, above, path, vs, left, ks) && k == KidAs(fs, o, above, path, e, 0, nlinks)
    requires left == nlinks - (if nlinks > 0 && (k.info == D || k.info == DC || k.info == DOT) then 1 else 0)
    ensures LookedAt(fs, o, above, path, [e] + vs, nlinks, [k] + ks)
  {
    var dir := if k.info == D || k.info == DC || k.info == DOT then 1 else 0;
    assert (dir == 0 || nlinks != 0) && left == if nlinks > 0 then nlinks - dir else nlinks;
    assert ([k] + ks)[..0] == [] && DirsSeen([]) == 0;
    hide KidAs, DirsSeen;
    forall i | 0 <= i < |ks|
      ensures ks[i] == KidAs(fs, o, above, path, vs[i], DirsSeen(([k] + ks)[..i + 1]), nlinks)
    {
      assert ([k] + ks)[..i + 1] == [k] + ks[..i];
      DirsSeenCons(k, ks[..i]);
      OneLinkLess(fs, o, above, path, vs[i], DirsSeen(ks[..i]), nlinks, dir);
    }
    Shifted(fs, o, above, path, e, vs, nlinks, k, ks);
  }

  lemma Shifted(fs: FileSys, o: Options, above: seq<Ino>, path: string, e: Entry, vs: seq<Entry>, nlinks: int,
                k: Kid, ks: seq<Kid>)
    requires |ks| == |vs| && k == KidAs(fs, o, above, path, e, DirsSeen(([k] + ks)[..0]), nlinks)
    requires forall i :: 0 <= i < |ks| ==>
      ks[i] == KidAs(fs, o, above, path, vs[i], DirsSeen(([k] + ks)[..i + 1]), nlinks)
    ensures LookedAt(fs, o, above, path, [e] + vs, nlinks, [k] + ks)
  {
    hide KidAs, DirsSeen;
    var s, ws := [k] + ks, [e] + vs;
    forall i | 0 <= i < |s|
      ensures s[i] == KidAs(fs, o, above, path, ws[i], DirsSeen(s[..i]), nlinks)
    {
      if i > 0 {
        assert s[i] == ks[i - 1] && ws[i] == vs[i - 1];
      }
    }
  }

  lemma {:induction false} KidsLookedAt(fs: FileSys, o: Options, above: seq<Ino>, path: string, es: seq<Entry>,
                                        nlinks: int)
    ensures LookedAt(fs, o, above, path, VisibleOf(o, es), nlinks, Kids(fs, o, above, path, es, nlinks))
    decreases |es|
  {
    hide Kids, LookedAt, VisibleOf, StatInfo, KidFor, KidAs;
    VisibleStep(o, es);
    if es == [] {
      NoKids(fs, o, above, path, nlinks);
      NoneLookedAt(fs, o, above, path, nlinks);
    } else {
      var k, left := KidsStep(fs, o, above, path, es, nlinks);
      KidsLookedAt(fs, o, above, path, es[1..], left);
      var vs, ks := VisibleOf(o, es[1..]), Kids(fs, o, above, path, es[1..], left);
      if Visible(o, es[0].name) {
        LookedAtCons(fs, o, above, path, es[0], vs, nlinks, k, ks, left);
      } else {
        assert [] + vs == vs && [] + ks == ks;
      }
    }
  }

  lemma NoneLookedAt(fs: FileSys, o: Options, above: seq<Ino>, path: string, nlinks: int)
    ensures LookedAt(fs, o, above, path, [], nlinks, [])
  {
  }

  /** Each kind of report, and what it says about the file. */
  lemma StatInfoIff(l: Looked, name: string, above: seq<Ino>)
    ensures var info := StatInfo(l, name, above);
      && (info == NS <==> l.Gone?) && (info == SLNONE <==> l.Dangling?)
      && (info == SL <==> l.Found? && l.file.Symlink?) && (info == F <==> l.Found? && l.file.Regular?)
      && (info == DEFAULT <==> l.Found? && l.file.Special?)
      && (info == DOT <==> l.Found? && l.file.Dir? && (name == "." || name == ".."))
      && (info == DC <==> l.Found? && l.file.Dir? && name != "." && name != ".." && l.ino in above)
      && (info == D <==> l.Found? && l.file.Dir? && name != "." && name != ".." && l.ino !in above)
  {
  }

  /** A root is entered whatever its name is, and a symbolic link is followed for it on demand. */
  lemma RootsAre(fs: FileSys, o: Options, roots: seq<(string, Ino)>, i: nat)
    requires i < |roots|
    ensures var kid, l := Roots(fs, o, roots)[i], Look(fs, o.logical || o.comfollow, roots[i].1);
      && kid.path == roots[i].0 && (kid.info == D <==> l.Found? && l.file.Dir?) && (kid.info == D ==> kid.dir == l.ino)
      && kid.info != DOT && kid.info != DC
  {
  }

  // ----- every entry of a directory that is entered ------------------------------------------

  /** A walk on from these entries enters the directory `dir` under the path and reads it. */
  ghost predicate Enters(fs: FileSys, o: Options, above: seq<Ino>, kids: seq<Kid>, path: string, dir: Ino)
    requires AllEnterable(fs, above, kids)
    decreases |Unused(fs, above)|, |kids|
  {
    kids != [] &&
      ((kids[0].info == D && fs[kids[0].dir].readable &&
        ((kids[0].path == path && kids[0].dir == dir)
          || (UnusedLess(fs, above, kids[0].dir); BelowEnterable(fs, o, above, kids[0]);
              Enters(fs, o, above + [kids[0].dir], Below(fs, o, above, kids[0].path, kids[0].dir), path, dir))))
       || Enters(fs, o, above, kids[1..], path, dir))
  }

  lemma {:induction false} FirstsIff(es: seq<Event>, p: string)
    ensures p in Firsts(es) <==> exists e :: e in es && e.path == p && e.info != DP && e.info != DNR
  {
    if es != [] {
      FirstsIff(es[1..], p);
      assert forall e :: e in es <==> e == es[0] || e in es[1..];
    }
  }

  lemma {:induction false} KidsReported(fs: FileSys, o: Options, above: seq<Ino>, kids: seq<Kid>, k: nat)
    requires AllEnterable(fs, above, kids) && Fresh(kids) && k < |kids|
    ensures kids[k].path in Firsts(Visits(fs, o, above, kids))
    decreases |kids|
  {
    hide Unused;
    var a, b := Visit(fs, o, above, kids[0]), Visits(fs, o, above, kids[1..]);
    FirstsAppend(a, b);
    if k == 0 {
      assert a[0] == Event(kids[0].info, kids[0].path, |above|) && a[0] in a;
      FirstsIff(a, kids[0].path);
    } else {
      KidsReported(fs, o, above, kids[1..], k - 1);
    }
  }

  /** Whatever lies directly in a directory that is entered is reported. */
  lemma {:induction false} EntersReports(fs: FileSys, o: Options, above: seq<Ino>, kids: seq<Kid>, path: string,
                                         dir: Ino, e: Entry)
    requires AllEnterable(fs, above, kids) && Enters(fs, o, above, kids, path, dir)
    requires dir in fs && fs[dir].Dir? && e in fs[dir].entries && Visible(o, e.name)
    ensures Join(path, e.name) in Firsts(Visits(fs, o, above, kids))
    decreases |Unused(fs, above)|, |kids|
  {
    hide Unused, Join, Kids, Visible, VisibleOf;
    var kid := kids[0];
    var a, b := Visit(fs, o, above, kid), Visits(fs, o, above, kids[1..]);
    FirstsAppend(a, b);
    if Enters(fs, o, above, kids[1..], path, dir) {
      EntersReports(fs, o, above, kids[1..], path, dir, e);
    } else {
      UnusedLess(fs, above, kid.dir);
      BelowEnterable(fs, o, above, kid);
      var above', inner := above + [kid.dir], Below(fs, o, above, kid.path, kid.dir);
      if kid.path == path && kid.dir == dir {
        var k := KidOf(fs, o, above, kid, e);
        KidsReported(fs, o, above', inner, k);
      } else {
        EntersReports(fs, o, above', inner, path, dir, e);
      }
      VisitFirsts(fs, o, above, kid);
    }
  }

  lemma KidOf(fs: FileSys, o: Options, above: seq<Ino>, kid: Kid, e: Entry) returns (k: nat)
    requires kid.dir in fs && fs[kid.dir].Dir? && e in fs[kid.dir].entries && Visible(o, e.name)
    ensures var inner := Below(fs, o, above, kid.path, kid.dir);
      k < |inner| && inner[k].path == Join(kid.path, e.name) && Fresh(inner)
  {
    hide Join, Kids, Visible, Links;
    var es, above', links := fs[kid.dir].entries, above + [kid.dir], Links(o, fs[kid.dir].nlink);
    KidsAreVisible(fs, o, above', kid.path, es, links);
    KidsFresh(fs, o, above', kid.path, es, links);
    k :| 0 <= k < |VisibleOf(o, es)| && VisibleOf(o, es)[k] == e;
  }

  lemma VisitFirsts(fs: FileSys, o: Options, above: seq<Ino>, kid: Kid)
    requires Enterable(fs, above, kid) && kid.info == D && fs[kid.dir].readable
      && AllEnterable(fs, above + [kid.dir], Below(fs, o, above, kid.path, kid.dir))
    ensures var inner := Visits(fs, o, above + [kid.dir], Below(fs, o, above, kid.path, kid.dir));
      forall p :: p in Firsts(inner) ==> p in Firsts(Visit(fs, o, above, kid))
  {
    hide Unused, Below;
    var inner := Visits(fs, o, above + [kid.dir], Below(fs, o, above, kid.path, kid.dir));
    var d, dp := Event(D, kid.path, |above|), Event(DP, kid.path, |above|);
    FirstsAppend([d] + inner, [dp]);
    FirstsAppend([d], inner);
  }

  /** Of every directory that a walk enters, each entry is reported but the two for the directory
      itself and for the one above, and these as well with `seedot`. */
  lemma EnteredIsComplete(fs: FileSys, o: Options, roots: seq<(string, Ino)>, path: string, dir: Ino, e: Entry)
    requires AllEnterable(fs, [], Roots(fs, o, roots)) && Enters(fs, o, [], Roots(fs, o, roots), path, dir)
    requires dir in fs && fs[dir].Dir? && e in fs[dir].entries && (o.seedot || (e.name != "." && e.name != ".."))
    ensures Join(path, e.name) in Firsts(Walk(fs, o, roots))
  {
    hide Unused, Visits, Enters;
    EntersReports(fs, o, [], Roots(fs, o, roots), path, dir, e);
  }

  // ----- all that is reported, and nothing else ------------------------------------------------

  /** The walk looks at every entry. */
  predicate LooksAtAll(o: Options) {
    o.logical || !o.nostat
  }

  /** The last report of a directory that has been entered. */
  ghost predicate IsLast(fs: FileSys, dir: Ino, info: Info) {
    dir in fs && fs[dir].Dir? && info == if fs[dir].readable then DP else DNR
  }

  /** The report `e` is of the entry `n` of a directory, or of what lies below it. `above` are
      the directories down to that one, `path` is its path. */
  ghost predicate OfEntry(fs: FileSys, o: Options, above: seq<Ino>, path: string, n: Entry, e: Event)
    decreases |Unused(fs, above)|, 1
  {
    var l, q := Look(fs, o.logical, n.ino), Join(path, n.name);
    var info := StatInfo(l, n.name, above);
    || e == Event(info, q, |above|)
    || (info == D && e == Event(e.info, q, |above|) && IsLast(fs, l.ino, e.info))
    || (info == D && InDir(fs, o, above, q, l.ino, e))
  }

  /** The report is of what lies in a directory that has been entered. */
  ghost predicate InDir(fs: FileSys, o: Options, above: seq<Ino>, path: string, dir: Ino, e: Event)
    decreases |Unused(fs, above)|, 0
  {
    dir in fs && fs[dir].Dir? && fs[dir].readable && dir !in above &&
      (UnusedLess(fs, above, dir);
      exists i :: 0 <= i < |fs[dir].entries| && Visible(o, fs[dir].entries[i].name)
        && OfEntry(fs, o, above + [dir], path, fs[dir].entries[i], e))
  }

  /** One of the visible entries, as it has been read. */
  ghost predicate IsKid(fs: FileSys, o: Options, above: seq<Ino>, path: string, es: seq<Entry>, kid: Kid) {
    exists i :: 0 <= i < |es| && Visible(o, es[i].name) && kid == KidFor(fs, o, above, path, es[i])
  }

  lemma {:induction false} KidsAre(fs: FileSys, o: Options, above: seq<Ino>, path: string, es: seq<Entry>)
    requires LooksAtAll(o)
    ensures forall kid :: kid in Kids(fs, o, above, path, es, -1) <==> IsKid(fs, o, above, path, es, kid)
    decreases |es|
  {
    hide StatInfo, Look, LookIno, Join;
    if es != [] {
      KidsAre(fs, o, above, path, es[1..]);
      var first := if Visible(o, es[0].name) then [KidFor(fs, o, above, path, es[0])] else [];
      var rest := Kids(fs, o, above, path, es[1..], -1);
      assert Kids(fs, o, above, path, es, -1) == first + rest;
      forall kid
        ensures kid in first + rest <==> IsKid(fs, o, above, path, es, kid)
      {
        if i :| 0 <= i < |es[1..]| && Visible(o, es[1..][i].name) && kid == KidFor(fs, o, above, path, es[1..][i]) {
          assert es[i + 1] == es[1..][i];
        }
        if i :| 0 <= i < |es| && Visible(o, es[i].name) && kid == KidFor(fs, o, above, path, es[i]) {
          assert i > 0 ==> es[1..][i - 1] == es[i];
        }
      }
    }
  }

  /** The report is of this entry, or of what lies below it. */
  ghost predicate OfKid(fs: FileSys, o: Options, above: seq<Ino>, kid: Kid, e: Event) {
    || e == Event(kid.info, kid.path, |above|)
    || (kid.info == D && e == Event(e.info, kid.path, |above|) && IsLast(fs, kid.dir, e.info))
    || (kid.info == D && InDir(fs, o, above, kid.path, kid.dir, e))
  }

  ghost predicate OfOne(fs: FileSys, o: Options, above: seq<Ino>, kids: seq<Kid>, e: Event) {
    exists k :: 0 <= k < |kids| && OfKid(fs, o, above, kids[k], e)
  }

  lemma {:induction false} VisitReports(fs: FileSys, o: Options, above: seq<Ino>, kid: Kid, e: Event)
    requires LooksAtAll(o) && Enterable(fs, above, kid)
    ensures e in Visit(fs, o, above, kid) <==> OfKid(fs, o, above, kid, e)
    decreases |Unused(fs, above)|, 1, 0
  {
    hide Unused;
    if kid.info == D && fs[kid.dir].readable {
      UnusedLess(fs, above, kid.dir);
      BelowEnterable(fs, o, above, kid);
      var above', inner := above + [kid.dir], Below(fs, o, above, kid.path, kid.dir);
      VisitsReport(fs, o, above', inner, e);
      DirReports(fs, o, above, kid, e);
      VisitIs(fs, o, above, kid);
    }
  }

  lemma VisitIs(fs: FileSys, o: Options, above: seq<Ino>, kid: Kid)
    requires Enterable(fs, above, kid) && kid.info == D && fs[kid.dir].readable
      && AllEnterable(fs, above + [kid.dir], Below(fs, o, above, kid.path, kid.dir))
    ensures Visit(fs, o, above, kid) == [Event(D, kid.path, |above|)]
      + Visits(fs, o, above + [kid.dir], Below(fs, o, above, kid.path, kid.dir)) + [Event(DP, kid.path, |above|)]
  {
    hide Unused, Below;
  }

  lemma DirReports(fs: FileSys, o: Options, above: seq<Ino>, kid: Kid, e: Event)
    requires LooksAtAll(o) && Enterable(fs, above, kid) && kid.info == D && fs[kid.dir].readable
    ensures var inner := Below(fs, o, above, kid.path, kid.dir);
      InDir(fs, o, above, kid.path, kid.dir, e) <==> OfOne(fs, o, above + [kid.dir], inner, e)
  {
    hide Unused, Kids, Visible, StatInfo, Look, Join;
    var es, above', inner := fs[kid.dir].entries, above + [kid.dir], Below(fs, o, above, kid.path, kid.dir);
    KidsAre(fs, o, above', kid.path, es);
    forall n | n in es
      ensures OfEntry(fs, o, above', kid.path, n, e) <==> OfKid(fs, o, above', KidFor(fs, o, above', kid.path, n), e)
    {
      EntryIsKid(fs, o, above', kid.path, n, e);
    }
    if i :| 0 <= i < |es| && Visible(o, es[i].name) && OfEntry(fs, o, above', kid.path, es[i], e) {
      assert KidFor(fs, o, above', kid.path, es[i]) in inner;
    }
    if k :| 0 <= k < |inner| && OfKid(fs, o, above', inner[k], e) {
      assert inner[k] in inner;
    }
  }

  lemma EntryIsKid(fs: FileSys, o: Options, above: seq<Ino>, path: string, n: Entry, e: Event)
    ensures OfEntry(fs, o, above, path, n, e) <==> OfKid(fs, o, above, KidFor(fs, o, above, path, n), e)
  {
    hide Unused, InDir, Join;
  }

  lemma {:induction false} VisitsReport(fs: FileSys, o: Options, above: seq<Ino>, kids: seq<Kid>, e: Event)
    requires LooksAtAll(o) && AllEnterable(fs, above, kids)
    ensures e in Visits(fs, o, above, kids) <==> OfOne(fs, o, above, kids, e)
    decreases |Unused(fs, above)|, 2, |kids|
  {
    hide Unused, OfKid, Visit;
    if kids != [] {
      VisitReports(fs, o, above, kids[0], e);
      VisitsReport(fs, o, above, kids[1..], e);
      if k :| 0 <= k < |kids[1..]| && OfKid(fs, o, above, kids[1..][k], e) {
        assert kids[k + 1] == kids[1..][k];
      }
      if k :| 0 <= k < |kids| && OfKid(fs, o, above, kids[k], e) {
        assert k > 0 ==> kids[1..][k - 1] == kids[k];
      }
    }
  }

  /** A walk that looks at every entry reports the roots and all that lies below them, each with
      its kind, its path and its depth, and nothing else. */
  lemma WalkReportsIff(fs: FileSys, o: Options, roots: seq<(string, Ino)>, e: Event)
    requires LooksAtAll(o)
    ensures e in Walk(fs, o, roots) <==> OfOne(fs, o, [], Roots(fs, o, roots), e)
  {
    hide OfKid, Visits;
    RootsEnterable(fs, o, roots);
    VisitsReport(fs, o, [], Roots(fs, o, roots), e);
  }

  /** With the shortcut as well, every path is reported, where each directory that is read has
      had enough links. */
  lemma ShortcutReports(fs: FileSys, o: Options, roots: seq<(string, Ino)>, p: string)
    requires !o.logical && AllTyped(fs) && AllEnterable(fs, [], Roots(fs, o, roots))
      && CountsVisits(fs, o, [], Roots(fs, o, roots))
    ensures p in Firsts(Walk(fs, o, roots)) <==> p in Firsts(Walk(fs, Every(o), roots))
  {
    hide Walk, CountsVisits, PlainEvents;
    LinkCountIff(fs, o, roots);
    PlainFirsts(Walk(fs, o, roots));
    PlainFirsts(Walk(fs, Every(o), roots));
  }

  lemma {:induction false} PlainFirsts(es: seq<Event>)
    ensures Firsts(PlainEvents(es)) == Firsts(es)
  {
    if es != [] {
      PlainFirsts(es[1..]);
      assert PlainEvents(es)[1..] == PlainEvents(es[1..]);
      assert PlainEvents(es)[0] == es[0].(info := Plain(es[0].info));
    }
  }

  // ----- one walk ---------------------------------------------------------------------------

  function SampleFiles(): FileSys {
    map[
      1 := Dir([Entry(".", 1, DtDir), Entry(".profile", 2, DtOther), Entry("sub", 3, DtDir),
        Entry("link", 5, DtUnknown)],
        true, 3),
      2 := Regular,
      3 := Dir([Entry("..", 1, DtDir), Entry("dev", 4, DtOther), Entry("loop", 1, DtDir)], true, 2),
      4 := Special,
      5 := Symlink(None)]
  }

  lemma KidsCons(fs: FileSys, o: Options, above: seq<Ino>, path: string, e: Entry, rest: seq<Entry>)
    requires LooksAtAll(o)
    ensures Kids(fs, o, above, path, [e] + rest, -1)
      == (if Visible(o, e.name) then [KidFor(fs, o, above, path, e)] else []) + Kids(fs, o, above, path, rest, -1)
    ensures Kids(fs, o, above, path, [e], -1)
      == if Visible(o, e.name) then [KidFor(fs, o, above, path, e)] else []
  {
    hide StatInfo, Look, LookIno, Join;
    assert ([e] + rest)[1..] == rest && [e][1..] == [];
    assert Kids(fs, o, above, path, [], -1) == [];
  }

  lemma SampleKids(fs: FileSys, o: Options)
    requires fs == SampleFiles() && o == Options(false, false, false, false)
    ensures KidFor(fs, o, [1], "r", Entry(".profile", 2, DtOther)) == Kid("r/.profile", F, 2)
    ensures KidFor(fs, o, [1], "r", Entry("sub", 3, DtDir)) == Kid("r/sub", D, 3)
    ensures KidFor(fs, o, [1], "r", Entry("link", 5, DtUnknown)) == Kid("r/link", SL, 5)
    ensures KidFor(fs, o, [1, 3], "r/sub", Entry("dev", 4, DtOther)) == Kid("r/sub/dev", DEFAULT, 4)
    ensures KidFor(fs, o, [1, 3], "r/sub", Entry("loop", 1, DtDir)) == Kid("r/sub/loop", DC, 1)
  {
  }

  lemma SampleRoot()
    ensures var fs, o := SampleFiles(), Options(false, false, false, false);
      Below(fs, o, [], "r", 1) == [Kid("r/.profile", F, 2), Kid("r/sub", D, 3), Kid("r/link", SL, 5)]
  {
    var fs, o := SampleFiles(), Options(false, false, false, false);
    var a, b, c, d := Entry(".", 1, DtDir), Entry(".profile", 2, DtOther), Entry("sub", 3, DtDir),
      Entry("link", 5, DtUnknown);
    SampleKids(fs, o);
    hide KidFor, Kids;
    assert fs[1].entries == [a] + ([b] + ([c] + [d]));
    KidsCons(fs, o, [1], "r", c, [d]);
    KidsCons(fs, o, [1], "r", d, []);
    KidsCons(fs, o, [1], "r", b, [c] + [d]);
    KidsCons(fs, o, [1], "r", a, [b] + ([c] + [d]));
    assert [] + [1] == [1];
  }

  lemma SampleSub()
    ensures var fs, o := SampleFiles(), Options(false, false, false, false);
      Below(fs, o, [1], "r/sub", 3) == [Kid("r/sub/dev", DEFAULT, 4), Kid("r/sub/loop", DC, 1)]
  {
    var fs, o := SampleFiles(), Options(false, false, false, false);
    var a, b, c := Entry("..", 1, DtDir), Entry("dev", 4, DtOther), Entry("loop", 1, DtDir);
    SampleKids(fs, o);
    hide KidFor, Kids;
    assert fs[3].entries == [a] + ([b] + [c]);
    KidsCons(fs, o, [1, 3], "r/sub", b, [c]);
    KidsCons(fs, o, [1, 3], "r/sub", c, []);
    KidsCons(fs, o, [1, 3], "r/sub", a, [b] + [c]);
    assert [1] + [3] == [1, 3];
  }

  lemma VisitsCons(fs: FileSys, o: Options, above: seq<Ino>, kid: Kid, rest: seq<Kid>)
    requires AllEnterable(fs, above, [kid] + rest)
    ensures Enterable(fs, above, kid) && AllEnterable(fs, above, rest) && AllEnterable(fs, above, [kid])
    ensures Visits(fs, o, above, [kid] + rest) == Visit(fs, o, above, kid) + Visits(fs, o, above, rest)
    ensures kid.info != D ==> Visit(fs, o, above, kid) == [Event(kid.info, kid.path, |above|)]
    ensures rest == [] ==> Visits(fs, o, above, rest) == []
  {
    hide Unused;
    var kids := [kid] + rest;
    assert kids[0] == kid && kids[1..] == rest;
    assert forall i :: 0 <= i < |rest| ==> rest[i] == kids[i + 1];
  }

  /** A directory that is entered, with the reports of each of its entries. */
  lemma VisitOf(fs: FileSys, o: Options, above: seq<Ino>, kid: Kid, inner: seq<Kid>)
    requires Enterable(fs, above, kid) && kid.info == D && fs[kid.dir].readable
    requires Below(fs, o, above, kid.path, kid.dir) == inner
    ensures AllEnterable(fs, above + [kid.dir], inner)
    ensures Visit(fs, o, above, kid)
      == [Event(D, kid.path, |above|)] + Visits(fs, o, above + [kid.dir], inner) + [Event(DP, kid.path, |above|)]
  {
    hide Visit, Below, Visits;
    BelowEnterable(fs, o, above, kid);
    VisitIs(fs, o, above, kid);
  }

  lemma SampleRoots()
    ensures Roots(SampleFiles(), Options(false, false, false, false), [("r", 1)]) == [Kid("r", D, 1)]
    ensures Enterable(SampleFiles(), [], Kid("r", D, 1)) && SampleFiles()[1].readable
  {
  }

  lemma SampleSubWalk()
    ensures Enterable(SampleFiles(), [1], Kid("r/sub", D, 3))
    ensures Visit(SampleFiles(), Options(false, false, false, false), [1], Kid("r/sub", D, 3))
      == [Event(D, "r/sub", 1), Event(DEFAULT, "r/sub/dev", 2), Event(DC, "r/sub/loop", 2), Event(DP, "r/sub", 1)]
  {
    var fs, o := SampleFiles(), Options(false, false, false, false);
    var s, d, c := Kid("r/sub", D, 3), Kid("r/sub/dev", DEFAULT, 4), Kid("r/sub/loop", DC, 1);
    assert fs[3].readable && Enterable(fs, [1], s);
    hide SampleFiles, Visits, Visit, Below, AllEnterable, Enterable;
    SampleSub();
    VisitOf(fs, o, [1], s, [d, c]);
    assert [d, c] == [d] + [c] && [c] == [c] + [] && [1] + [3] == [1, 3];
    VisitsCons(fs, o, [1, 3], d, [c]);
    VisitsCons(fs, o, [1, 3], c, []);
  }

  /** A root with three entries, the second of which is a directory. */
  lemma ThreeBelow(fs: FileSys, o: Options, r: Kid, p: Kid, s: Kid, l: Kid)
    requires r.info == D && p.info != D && l.info != D && Enterable(fs, [], r) && fs[r.dir].readable
    requires Below(fs, o, [], r.path, r.dir) == [p, s, l]
    ensures AllEnterable(fs, [], [r]) && Enterable(fs, [r.dir], s)
    ensures Visits(fs, o, [], [r]) == [Event(D, r.path, 0)]
      + ([Event(p.info, p.path, 1)] + (Visit(fs, o, [r.dir], s) + [Event(l.info, l.path, 1)])) + [Event(DP, r.path, 0)]
  {
    hide Visits, Visit, Below, Enterable;
    VisitOf(fs, o, [], r, [p, s, l]);
    assert [r] == [r] + [] && [] + [r.dir] == [r.dir] && [p, s, l] == [p] + [s, l] && [s, l] == [s] + [l]
      && [l] == [l] + [];
    VisitsCons(fs, o, [], r, []);
    VisitsCons(fs, o, [r.dir], p, [s, l]);
    VisitsCons(fs, o, [r.dir], s, [l]);
    VisitsCons(fs, o, [r.dir], l, []);
  }

  /** A hidden file, a directory with a special file and a link back to the root in it, and a
      symbolic link; the entries for the directories themselves are not shown. */
  lemma SampleWalk()
    ensures Walk(SampleFiles(), Options(false, false, false, false), [("r", 1)])
      == [Event(D, "r", 0), Event(F, "r/.profile", 1), Event(D, "r/sub", 1), Event(DEFAULT, "r/sub/dev", 2),
          Event(DC, "r/sub/loop", 2), Event(DP, "r/sub", 1), Event(SL, "r/link", 1), Event(DP, "r", 0)]
  {
    hide SampleFiles, Visits, Visit, Below, Roots, AllEnterable, Enterable;
    SampleRoots();
    SampleRoot();
    SampleSubWalk();
    ThreeBelow(SampleFiles(), Options(false, false, false, false), Kid("r", D, 1), Kid("r/.profile", F, 2),
      Kid("r/sub", D, 3), Kid("r/link", SL, 5));
  }

  /** With the shortcut, in the directory of that walk: three links are one subdirectory, which
      comes before the symbolic link; with the entries for the directories themselves shown, they
      are two of the three. */
  lemma SampleShortcut()
    ensures Below(SampleFiles(), Options(false, false, true, false), [], "r", 1)
      == [Kid("r/.profile", NSOK, 0), Kid("r/sub", D, 3), Kid("r/link", NSOK, 0)]
    ensures Below(SampleFiles(), Options(false, false, true, true), [], "r", 1)
      == [Kid("r/.", DOT, 1), Kid("r/.profile", NSOK, 0), Kid("r/sub", D, 3), Kid("r/link", SL, 5)]
  {
    ShortcutSample(false);
    ShortcutSample(true);
  }

  lemma ShortcutSample(seedot: bool)
    ensures var ks := Below(SampleFiles(), Options(false, false, true, seedot), [], "r", 1);
      ks == if seedot then [Kid("r/.", DOT, 1), Kid("r/.profile", NSOK, 0), Kid("r/sub", D, 3), Kid("r/link", SL, 5)]
        else [Kid("r/.profile", NSOK, 0), Kid("r/sub", D, 3), Kid("r/link", NSOK, 0)]
  {
    hide KidFor, Join, Kids, LookedAt, VisibleOf, DirsSeen;
    var fs, o := SampleFiles(), Options(false, false, true, seedot);
    var a, b, c, d := Entry(".", 1, DtDir), Entry(".profile", 2, DtOther), Entry("sub", 3, DtDir),
      Entry("link", 5, DtUnknown);
    ShortcutKids(fs);
    assert fs[1].entries == [a, b, c, d] && fs[1].nlink == 3 && [] + [1] == [1];
    hide SampleFiles;
    var ks := Below(fs, o, [], "r", 1);
    VisibleFour(o, a, b, c, d);
    if seedot {
      KidsLookedAt(fs, o, [1], "r", [a, b, c, d], 3);
      TwoSeen(fs, o, a, b, c, d, ks);
    } else {
      KidsLookedAt(fs, o, [1], "r", [a, b, c, d], 1);
      OneSeen(fs, o, b, c, d, ks);
    }
  }

  lemma OneSeen(fs: FileSys, o: Options, b: Entry, c: Entry, d: Entry, ks: seq<Kid>)
    requires o.nostat && !o.logical && b.dtype == DtOther && c.dtype != DtOther && d.dtype != DtOther
    requires LookedAt(fs, o, [1], "r", [b, c, d], 1, ks) && KidFor(fs, o, [1], "r", c).info == D
    ensures ks == [Kid(Join("r", b.name), NSOK, 0), KidFor(fs, o, [1], "r", c), Kid(Join("r", d.name), NSOK, 0)]
  {
    hide KidFor, Join, DirsSeen;
    SeenNext(ks, 0);
    SeenNext(ks, 1);
  }

  lemma TwoSeen(fs: FileSys, o: Options, a: Entry, b: Entry, c: Entry, d: Entry, ks: seq<Kid>)
    requires o.nostat && !o.logical && b.dtype == DtOther
      && a.dtype != DtOther && c.dtype != DtOther && d.dtype != DtOther
    requires LookedAt(fs, o, [1], "r", [a, b, c, d], 3, ks)
    requires KidFor(fs, o, [1], "r", a).info == DOT && KidFor(fs, o, [1], "r", c).info == D
    ensures ks == [KidFor(fs, o, [1], "r", a), Kid(Join("r", b.name), NSOK, 0), KidFor(fs, o, [1], "r", c),
                   KidFor(fs, o, [1], "r", d)]
  {
    hide KidFor, Join, DirsSeen;
    SeenNext(ks, 0);
    SeenNext(ks, 1);
    SeenNext(ks, 2);
  }

  lemma SeenNext(ks: seq<Kid>, k: nat)
    requires k < |ks|
    ensures DirsSeen(ks[..0]) == 0
    ensures DirsSeen(ks[..k + 1])
      == DirsSeen(ks[..k]) + if ks[k].info == D || ks[k].info == DC || ks[k].info == DOT then 1 else 0
  {
    assert ks[..k + 1][..k] == ks[..k];
  }

  lemma VisibleCons(o: Options, e: Entry, rest: seq<Entry>)
    ensures VisibleOf(o, [e] + rest) == (if Visible(o, e.name) then [e] else []) + VisibleOf(o, rest)
  {
    assert ([e] + rest)[1..] == rest;
  }

  lemma VisibleFour(o: Options, a: Entry, b: Entry, c: Entry, d: Entry)
    requires a.name == "." && Visible(o, b.name) && Visible(o, c.name) && Visible(o, d.name)
    ensures VisibleOf(o, [a, b, c, d]) == if o.seedot then [a, b, c, d] else [b, c, d]
  {
    assert VisibleOf(o, []) == [];
    assert Visible(o, a.name) <==> o.seedot;
    hide VisibleOf, Visible;
    assert [a, b, c, d] == [a] + ([b] + ([c] + ([d] + [])));
    VisibleCons(o, d, []);
    VisibleCons(o, c, [d] + []);
    VisibleCons(o, b, [c] + ([d] + []));
    VisibleCons(o, a, [b] + ([c] + ([d] + [])));
  }

  lemma ShortcutKids(fs: FileSys)
    requires fs == SampleFiles()
    ensures forall seedot :: var o := Options(false, false, true, seedot);
      && KidFor(fs, o, [1], "r", Entry(".", 1, DtDir)) == Kid("r/.", DOT, 1)
      && KidFor(fs, o, [1], "r", Entry("sub", 3, DtDir)) == Kid("r/sub", D, 3)
      && KidFor(fs, o, [1], "r", Entry("link", 5, DtUnknown)) == Kid("r/link", SL, 5)
    ensures Join("r", ".profile") == "r/.profile" && Join("r", "link") == "r/link"
  {
  }
}
