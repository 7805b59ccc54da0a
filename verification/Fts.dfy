/** The walk as it runs: entries linked to their siblings and parents, and one buffer for
    all paths. */
module Fts {
  import opened FtsWalk

  class FtsEnt {
    var name: string
    var pathlen: nat
    var info: Info
    var link: FtsEnt?
    const level: int
    const parent: FtsEnt?
    const ino: Ino
    const nlink: int

    constructor (name: string, pathlen: nat, info: Info, level: int, parent: FtsEnt?, ino: Ino, nlink: int)
      ensures this.name == name && this.pathlen == pathlen && this.info == info && link == null
      ensures this.level == level && this.parent == parent && this.ino == ino && this.nlink == nlink
    {
      this.name, this.pathlen, this.info, link := name, pathlen, info, null;
      this.level, this.parent, this.ino, this.nlink := level, parent, ino, nlink;
    }
  }

  /** What is behind the last slash, except that a single slash stays. */
  function LastComponent(name: string): string {
    if name == "/" then name else BehindSlash(name)
  }

  function BehindSlash(name: string): string {
    if name == "" then ""
    else if name[|name| - 1] == '/' then ""
    else BehindSlash(name[..|name| - 1]) + [name[|name| - 1]]
  }

  lemma {:induction false} LastFrom(name: string, cp: nat)
    requires cp <= |name| && '/' !in name[cp..] && (cp > 0 ==> name[cp - 1] == '/')
    ensures BehindSlash(name) == name[cp..]
  {
    if cp < |name| {
      var less := name[..|name| - 1];
      assert name[|name| - 1] == name[cp..][|name| - 1 - cp];
      assert less[cp..] <= name[cp..];
      LastFrom(less, cp);
      assert name[cp..] == less[cp..] + [name[|name| - 1]];
    }
  }

  /** An empty directory loses a slash at the end of its path. */
  predicate EmptyShown(buf: seq<char>, path: string) {
    if path != "" && path[|path| - 1] == '/' then Shows(buf, path[..|path| - 1]) else Shows(buf, path)
  }

  lemma ShownHas(buf: seq<char>, path: string)
    requires Shows(buf, path)
    ensures Has(buf, path)
  {
  }

  lemma BelowFresh(fs: FileSys, o: Options, st: Stack)
    requires Readable(fs, st)
    ensures var kids := Below(fs, o, st[|st| - 1].above, Top(st).path, Top(st).dir);
      kids != [] ==> kids[0].info != DP
  {
    KidsFresh(fs, o, st[|st| - 1].above + [Top(st).dir], Top(st).path, fs[Top(st).dir].entries,
      Links(o, fs[Top(st).dir].nlink));
  }

  lemma NotSlashed(path: string, name: string, buf: seq<char>)
    requires NameOk(name)
    ensures EmptyShown(buf, Join(path, name)) || Shows(buf, Join(path, name)) ==> Has(buf, Join(path, name))
    ensures EmptyShown(buf, Join(path, name)) <==> Shows(buf, Join(path, name))
  {
    var j := Join(path, name);
    assert j[|j| - 1] == name[|name| - 1];
  }

  /** What the buffer holds when an event is returned: the path, without the slash at the end
      of a root directory that is left right after it has been entered. */
  function ShownPath(before: Info, e: Event): string {
    if before == D && e.info == DP && e.level == 0 && e.path != ""
      && e.path[|e.path| - 1] == '/' then e.path[..|e.path| - 1]
    else e.path
  }

  lemma EmptyShownPath(buf: seq<char>, e: Event)
    requires e.info == DP && EmptyShown(buf, e.path) && (e.level > 0 ==> Shows(buf, e.path))
    ensures Shows(buf, ShownPath(D, e))
  {
  }

  lemma ShownPathIff(buf: seq<char>, before: Info, e: Event)
    requires Shows(buf, ShownPath(before, e))
    ensures Shows(buf, e.path) <==> ShownPath(before, e) == e.path
  {
    if ShownPath(before, e) != e.path {
      assert buf[|e.path| - 1] != e.path[|e.path| - 1];
    }
  }

  lemma PopShown(buf: seq<char>, path: string, up: string)
    requires Has(buf, path) && up <= path
    ensures Has(buf, up) && Shows(Put(buf, |up|, ['\0']), up) && Has(Put(buf, |up|, ['\0']), up)
  {
  }

  /** What is written into the buffer around the reading of a directory. */
  lemma BufferSteps(buf: seq<char>, path: string)
    requires Shows(buf, path) && path != ""
    ensures var napp := if path[|path| - 1] == '/' then |path| - 1 else |path|;
      && buf[|path| - 1] == path[|path| - 1] && napp + 1 == |Slashed(path)| && napp <= |buf|
        && Has(Put(buf, napp, "/"), Slashed(path))
  {
  }

  lemma BufferEnds(buf: seq<char>, path: string)
    requires Has(buf, Slashed(path)) && path != ""
    ensures EmptyShown(Put(buf, |Slashed(path)| - 1, ['\0']), path)
      && Has(Put(buf, |Slashed(path)|, ['\0']), Slashed(path))
  {
  }

  /** The buffer while an entry is looked at. */
  lemma BufferName(buf: seq<char>, path: string, name: string)
    requires Has(buf, Slashed(path))
    ensures |Slashed(path)| <= |buf|
    ensures var b := Put(buf, |Slashed(path)|, name + ['\0']);
      Shows(b, Join(path, name)) && Has(b, Slashed(path))
  {
    JoinSlashed(path, name);
  }

  lemma SlashedHas(buf: seq<char>, path: string)
    requires Has(buf, Slashed(path))
    ensures Has(buf, path)
  {
    JoinSlashed(path, "");
  }

  /** Puts `s` into a buffer that grows as needed. */
  function Put(buf: seq<char>, at: nat, s: seq<char>): (r: seq<char>)
    requires at <= |buf|
    ensures |r| >= at + |s| && |r| >= |buf|
    ensures r[..at] == buf[..at] && r[at..at + |s|] == s
  {
    buf[..at] + s + if at + |s| <= |buf| then buf[at + |s|..] else []
  }

  /** The buffer begins with the path. */
  predicate Has(buf: seq<char>, path: string) {
    path <= buf
  }

  /** The buffer, read as a string, is the path. */
  predicate Shows(buf: seq<char>, path: string) {
    path <= buf && |path| < |buf| && buf[|path|] == '\0'
  }

  // ----- a level of entries ----------------------------------------------------------

  /** The entry stands for `kid`, read from the directory whose path is `path`. */
  ghost predicate EntOk(fs: FileSys, n: FtsEnt, kid: Kid, level: nat, parent: FtsEnt?, path: string)
    reads n`info, n`name, n`pathlen
  {
    && n.info == kid.info && kid.info != INIT && n.level == level && n.parent == parent
    && (kid.info == D ==> n.ino == kid.dir && kid.dir in fs && fs[kid.dir].Dir? && n.nlink == fs[kid.dir].nlink)
    && (level > 0 ==> NameOk(n.name) && kid.path == Join(path, n.name) && n.pathlen == |kid.path|)
  }

  function EntAt(ns: seq<FtsEnt>, j: int): FtsEnt? {
    if 0 <= j < |ns| then ns[j] else null
  }

  ghost predicate Row(fs: FileSys, ns: seq<FtsEnt>, kids: seq<Kid>, level: nat, parent: FtsEnt?, path: string)
    reads ns`info, ns`name, ns`pathlen, ns`link
  {
    && |ns| == |kids|
    && (forall j :: 0 <= j < |ns| ==> EntOk(fs, ns[j], kids[j], level, parent, path))
    && (forall j :: 0 <= j < |ns| ==> ns[j].link == EntAt(ns, j + 1))
    && (forall i, j :: 0 <= i < j < |ns| ==> ns[i] != ns[j])
  }

  lemma RowNone(fs: FileSys, level: nat, parent: FtsEnt?, path: string)
    ensures Row(fs, [], [], level, parent, path)
  {
  }

  lemma RowRest(fs: FileSys, ns: seq<FtsEnt>, kids: seq<Kid>, level: nat, parent: FtsEnt?, path: string)
    requires Row(fs, ns, kids, level, parent, path) && ns != []
    ensures Row(fs, ns[1..], kids[1..], level, parent, path)
    ensures ns[0].link == EntAt(ns, 1)
  {
    forall j | 0 <= j < |ns[1..]|
      ensures EntOk(fs, ns[1..][j], kids[1..][j], level, parent, path)
    {
      assert EntOk(fs, ns[j + 1], kids[j + 1], level, parent, path);
    }
    assert forall j :: 0 <= j < |ns[1..]| ==> ns[1..][j] == ns[j + 1] && EntAt(ns[1..], j + 1) == EntAt(ns, j + 2);
  }

  lemma RowHead(fs: FileSys, ns: seq<FtsEnt>, kids: seq<Kid>, level: nat, parent: FtsEnt?, path: string)
    requires Row(fs, ns, kids, level, parent, path) && ns != []
    ensures |ns| == |kids| && ns[0].info == kids[0].info && ns[0].info != INIT && ns[0].level == level
      && ns[0].parent == parent
    ensures ns[0].info == D ==> ns[0].ino == kids[0].dir
    ensures level > 0 ==>
      NameOk(ns[0].name) && kids[0].path == Join(path, ns[0].name) && ns[0].pathlen == |kids[0].path|
    ensures ns[0].link == EntAt(ns, 1)
  {
    assert EntOk(fs, ns[0], kids[0], level, parent, path);
  }

  /** The current entry is a directory to be read. */
  ghost predicate Readable(fs: FileSys, st: Stack) {
    st != [] && st[|st| - 1].todo != [] && Top(st).info == D && Top(st).dir in fs && fs[Top(st).dir].Dir?
  }

  /** A level and the entry that is marked. */
  datatype Marking = Marking(fs: FileSys, ns: seq<FtsEnt>, kids: seq<Kid>, level: nat, parent: FtsEnt?, path: string,
                             c: FtsEnt, info: Info)

  function MarkedKids(m: Marking): seq<Kid> {
    if m.ns != [] && m.kids != [] && m.ns[0] == m.c then m.kids[0 := m.kids[0].(info := m.info)] else m.kids
  }

  /** A level after one entry, its first or none of it, has been marked. */
  twostate lemma RowMarked(m: Marking)
    requires old(Row(m.fs, m.ns, m.kids, m.level, m.parent, m.path)) && m.c.info == m.info && m.info != D
      && m.info != INIT
    requires forall j :: 0 < j < |m.ns| ==> m.ns[j] != m.c
    requires forall j :: 0 <= j < |m.ns| ==>
      (m.ns[j] != m.c ==>
      m.ns[j].info == old(m.ns[j].info)) && m.ns[j].name == old(m.ns[j].name)
      && m.ns[j].pathlen == old(m.ns[j].pathlen) && m.ns[j].link == old(m.ns[j].link)
    ensures Row(m.fs, m.ns, MarkedKids(m), m.level, m.parent, m.path)
  {
    forall j | 0 <= j < |m.ns|
      ensures EntOk(m.fs, m.ns[j], MarkedKids(m)[j], m.level, m.parent, m.path)
    {
      assert old(EntOk(m.fs, m.ns[j], m.kids[j], m.level, m.parent, m.path));
    }
  }

  /** Names and lengths of paths do not matter for roots. */
  twostate lemma RowLoaded(m: Marking)
    requires old(Row(m.fs, m.ns, m.kids, 0, m.parent, m.path))
    requires forall j :: 0 <= j < |m.ns| ==> m.ns[j].info == old(m.ns[j].info) && m.ns[j].link == old(m.ns[j].link)
    ensures Row(m.fs, m.ns, m.kids, 0, m.parent, m.path)
  {
    forall j | 0 <= j < |m.ns|
      ensures EntOk(m.fs, m.ns[j], m.kids[j], 0, m.parent, m.path)
    {
      assert old(EntOk(m.fs, m.ns[j], m.kids[j], 0, m.parent, m.path));
    }
  }

  lemma RowParent(fs: FileSys, ns: seq<FtsEnt>, kids: seq<Kid>, level: nat, parent: FtsEnt?, path: string, p: FtsEnt)
    requires Row(fs, ns, kids, level, parent, path) && p in ns
    ensures p.parent == parent
  {
    var j :| 0 <= j < |ns| && ns[j] == p;
    assert EntOk(fs, ns[j], kids[j], level, parent, path);
  }

  lemma RowApart(fs: FileSys, ns: seq<FtsEnt>, kids: seq<Kid>, level: nat, parent: FtsEnt?, path: string)
    requires Row(fs, ns, kids, level, parent, path)
    ensures forall i, j :: 0 <= i < j < |ns| ==> ns[i] != ns[j]
  {
  }

  lemma RowLevels(fs: FileSys, ns: seq<FtsEnt>, kids: seq<Kid>, level: nat, parent: FtsEnt?, path: string)
    requires Row(fs, ns, kids, level, parent, path)
    ensures forall j :: 0 <= j < |ns| ==> ns[j].level == level
  {
    forall j | 0 <= j < |ns|
      ensures ns[j].level == level
    {
      assert EntOk(fs, ns[j], kids[j], level, parent, path);
    }
  }

  class FtsStream {
    const fs: FileSys
    const o: Options
    var cur: FtsEnt?
    var path: seq<char>

    /** The walk in progress and the entries of its levels. */
    ghost var st: Stack
    ghost var nodes: seq<seq<FtsEnt>>
    ghost var rootParent: FtsEnt?
    ghost var repr: set<FtsEnt>

    ghost predicate Rows()
      reads this`nodes, this`st, this`rootParent, this`repr, repr
    {
      && |nodes| == |st| && rootParent != null && rootParent.level == -1
      && (forall i :: 0 <= i < |nodes| ==> RowAt(i))
    }

    /** The entries of a level that are left. */
    ghost predicate RowAt(i: nat)
      reads this`nodes, this`st, this`rootParent, this`repr, repr
    {
      i < |nodes| && i < |st| && nodes[i] != [] && (forall j :: 0 <= j < |nodes[i]| ==>
        nodes[i][j] in repr) && Row(fs, nodes[i], st[i].todo, i, Parent(i), st[i].path)
    }

    ghost function Parent(i: nat): FtsEnt?
      reads this`nodes, this`rootParent
    {
      if i == 0 then rootParent else if i - 1 < |nodes| && nodes[i - 1] != [] then nodes[i - 1][0] else null
    }

    /** Roots keep their full name until they are reached. */
    ghost predicate RootsNamed(from: nat)
      reads this`nodes, this`st, this`repr, repr
    {
      && |st| > 0 && |nodes| > 0 && |nodes[0]| == |st[0].todo|
      && (forall j :: 0 <= j < |nodes[0]| ==> nodes[0][j] in repr && st[0].todo[j].path != "")
      && (forall j :: from <= j < |nodes[0]| ==> nodes[0][j].name == st[0].todo[j].path)
      && (from == 1 ==> nodes[0] != [] && nodes[0][0].pathlen == |st[0].todo[0].path|)
    }

    /** Names in directories are not empty and have no slashes. */
    ghost predicate NamesOk()
    {
      forall d :: d in fs && fs[d].Dir? ==> forall i :: 0 <= i < |fs[d].entries| ==> NameOk(fs[d].entries[i].name)
    }

    ghost predicate Beginning()
      reads this, repr
    {
      && cur != null && cur in repr && cur.info == INIT && Rows() && Walking(fs, st) && |st| == 1 && |nodes[0]| > 0
      && cur.link == nodes[0][0] && cur !in nodes[0] && RootsNamed(0)
    }

    /** The current entry has its place in the walk. */
    ghost predicate Placed()
      reads this`cur, this`nodes, this`st, this`rootParent, this`repr, repr
    {
      && cur != null && cur in repr && cur.info != INIT && Rows() && |st| > 0 && Walking(fs, st) && RootsNamed(1)
      && nodes[|st| - 1] != [] && cur == nodes[|st| - 1][0]
    }

    ghost predicate Going()
      reads this, repr
    {
      && Placed()
      && (cur.info == D ==> Shows(path, Top(st).path))
      && (|st| > 1 ==> Has(path, Top(st).path))
    }

    ghost predicate Valid()
      reads this, repr
    {
      NamesOk() && (cur == null || Beginning() || Going())
    }

    /** What is still to come. */
    ghost function Pending(): seq<Event>
      requires Valid()
      reads this, repr
    {
      if cur == null then []
      else if cur.info == INIT then (assert Level(fs, st, 0); Visits(fs, o, [], st[0].todo))
      else Remaining(fs, o, st)
    }

    constructor (fs: FileSys, o: Options)
      ensures this.fs == fs && this.o == o && cur == null && repr == {} && path == []
    {
      this.fs, this.o := fs, o;
      cur, path := null, [];
      rootParent := null;
      st, nodes, repr := [], [], {};
    }

    /** The entry that heads a level. */
    ghost function Head(i: int): FtsEnt?
      reads this`nodes, this`rootParent
    {
      if 0 <= i < |nodes| && nodes[i] != [] then nodes[i][0] else rootParent
    }

    /** The directories that are open. */
    ghost function OpenDirs(): seq<Ino>
      requires Placed()
      reads this`cur, this`nodes, this`st, this`rootParent, this`repr, repr
    {
      st[|st| - 1].above + [Top(st).dir]
    }

    lemma Chain(i: nat)
      requires Placed() && cur.info == D && i < |st|
      ensures |OpenDirs()| == |st| && Head(|st| - 1) == cur
      ensures Head(i) != null && Head(i).ino == OpenDirs()[i] && Head(i).level == i && Head(i).parent == Head(i - 1)
    {
      hide Row, RootsNamed, Shows, Has, Walking, EntOk;
      assert RowAt(i) && RowAt(|st| - 1) && (i > 0 ==> RowAt(i - 1));
      RowHead(fs, nodes[i], st[i].todo, i, Parent(i), st[i].path);
      OpenAt(fs, st, i);
    }

    /** `fts_stat` for an entry of the current directory; a directory that is open already
        closes a cycle. */
    method Stat(l: Looked, name: string) returns (info: Info)
      requires Placed() && cur.info == D
      ensures info == StatInfo(l, name, OpenDirs())
    {
      hide Rows, RootsNamed, Walking, Shows, Has, OpenDirs;
      match l
      case Gone => info := NS;
      case Dangling => info := SLNONE;
      case Found(ino, file) =>
        match file
        case Symlink(_) => info := SL;
        case Regular => info := F;
        case Special => info := DEFAULT;
        case Dir(_, _, _) =>
          if IsDot(name) {
            return DOT;
          }
          var t := cur;
          ghost var i := |st| - 1;
          Chain(|st| - 1);
          while t.level >= 0
            invariant -1 <= i < |st| && t != null && t == Head(i) && t.level == i
            invariant ino !in OpenDirs()[i + 1..]
            decreases i
          {
            Chain(i);
            if t.ino == ino {
              return DC;
            }
            OneMore(OpenDirs(), i, ino);
            t := t.parent;
            i := i - 1;
            if i >= 0 {
              Chain(i);
            } else {
              RootParent();
            }
          }
          All(OpenDirs());
          info := D;
    }

    /** An entry at the end of a list being built. */
    method Append(ghost ns: seq<FtsEnt>, ghost kids: seq<Kid>, tail: FtsEnt?, p: FtsEnt, ghost kid: Kid,
                  ghost level: nat, ghost parent: FtsEnt?, ghost up: string)
      requires Row(fs, ns, kids, level, parent, up) && tail == EntAt(ns, |ns| - 1) && p !in ns
      requires EntOk(fs, p, kid, level, parent, up) && p.link == null
      modifies if tail == null then {} else {tail}`link
      ensures Row(fs, ns + [p], kids + [kid], level, parent, up)
    {
      if tail != null {
        tail.link := p;
      }
      ghost var ns', kids' := ns + [p], kids + [kid];
      forall j | 0 <= j < |ns'|
        ensures EntOk(fs, ns'[j], kids'[j], level, parent, up) && ns'[j].link == EntAt(ns', j + 1)
      {
        if j < |ns| {
          assert EntOk(fs, ns[j], kids[j], level, parent, up);
          assert ns'[j] == ns[j] && (j + 1 < |ns| ==> ns[j] != ns[|ns| - 1]);
        }
      }
    }

    /** One entry of the current directory, looked at unless that can be saved. */
    method ReadEntry(e: Entry, nlinks: int, len: nat, ghost up: string) returns (p: FtsEnt, left: int, ghost kid: Kid)
      requires Placed() && cur.info == D && up == Top(st).path && Has(path, Slashed(up)) && len == |Slashed(up)|
        && NameOk(e.name)
      modifies this`path
      ensures fresh(p) && p.link == null && EntOk(fs, p, kid, |st|, cur, up) && Has(path, Slashed(up))
      ensures var info := StatInfo(Look(fs, o.logical, e.ino), e.name, OpenDirs());
        if Skipped(o, e, nlinks) then kid == Kid(Join(up, e.name), NSOK, 0) && left == nlinks
        else
          && kid == Kid(Join(up, e.name), info, LookIno(Look(fs, o.logical, e.ino)))
          && left == if nlinks > 0 && IsDirInfo(info) then nlinks - 1 else nlinks
    {
      hide Rows, RootsNamed, Walking, OpenDirs, StatInfo, Put, Has, Shows, Slashed, Look;
      BufferName(path, up, e.name);
      left := nlinks;
      Chain(|st| - 1);
      JoinSlashed(up, e.name);
      if Skipped(o, e, nlinks) {
        kid := Kid(Join(up, e.name), NSOK, 0);
        p := new FtsEnt(e.name, len + |e.name|, NSOK, cur.level + 1, cur, 0, 0);
      } else {
        path := Put(path, len, e.name + ['\0']);
        assert Shows(path, Join(up, e.name));
        var l := Look(fs, o.logical, e.ino);
        var info := Stat(l, e.name);
        if left > 0 && IsDirInfo(info) {
          left := left - 1;
        }
        kid := Kid(Join(up, e.name), info, LookIno(l));
        DirFound(fs, o.logical, e.ino, e.name, OpenDirs());
        p := new FtsEnt(e.name, len + |e.name|, info, cur.level + 1, cur, LookIno(l),
          if l.Found? && l.file.Dir? then l.file.nlink else 0);
      }
    }

    /** The current directory as its entry knows it. */
    lemma DirAt()
      requires Placed()
      ensures st[|st| - 1].todo != [] && cur.level == |st| - 1 && cur.info == Top(st).info && Top(st).path != ""
        && cur.pathlen == |Top(st).path|
      ensures cur.info == D ==>
        cur.ino == Top(st).dir && cur.ino in fs && fs[cur.ino].Dir? && cur.nlink == fs[cur.ino].nlink
    {
      var n := |st| - 1;
      assert RowAt(n);
      assert EntOk(fs, nodes[n][0], st[n].todo[0], n, Parent(n), st[n].path);
      if n > 0 {
        JoinSlashed(st[n].path, cur.name);
      }
    }

    /** Marks the current directory as done or as unreadable. */
    method Finish(info: Info)
      requires Placed() && info != D && info != INIT
      modifies cur`info, this`st
      ensures Placed() && cur.info == info && st == Mark(old(st), info)
    {
      hide Row;
      ghost var s0, n := st, |st| - 1;
      Marked(fs, o, st, info);
      OnOwnLevel();
      cur.info := info;
      st := Mark(st, info);
      forall i | 0 <= i < |st|
        ensures RowAt(i)
      {
        assert old(RowAt(i));
        RowMarked(Marking(fs, nodes[i], s0[i].todo, i, Parent(i), s0[i].path, cur, info));
      }
    }

    /** The current entry is only on the last level. */
    lemma OnOwnLevel()
      requires Placed()
      ensures forall i, j :: 0 <= i < |nodes| && 0 <= j < |nodes[i]| && nodes[i][j] == cur ==>
        i == |nodes| - 1 && j == 0
    {
      hide Row;
      var n := |st| - 1;
      assert RowAt(n);
      RowLevels(fs, nodes[n], st[n].todo, n, Parent(n), st[n].path);
      RowApart(fs, nodes[n], st[n].todo, n, Parent(n), st[n].path);
      forall i, j | 0 <= i < |nodes| - 1 && 0 <= j < |nodes[i]|
        ensures nodes[i][j] != cur
      {
        assert RowAt(i);
        RowLevels(fs, nodes[i], st[i].todo, i, Parent(i), st[i].path);
      }
    }

    /** The entries of the current directory, in order. */
    method ReadAll(es: seq<Entry>, nlinks0: int, len: nat) returns (head: FtsEnt?, ghost ns: seq<FtsEnt>)
      requires Placed() && cur.info == D && st[|st| - 1].todo != [] && Has(path, Slashed(Top(st).path))
        && len == |Slashed(Top(st).path)|
      requires forall i :: 0 <= i < |es| ==> NameOk(es[i].name)
      modifies this`path
      ensures forall j :: 0 <= j < |ns| ==> fresh(ns[j])
      ensures Has(path, Slashed(Top(st).path)) && head == EntAt(ns, 0)
      ensures var kids := Kids(fs, o, OpenDirs(), Top(st).path, es, nlinks0);
        |ns| == |kids| && Row(fs, ns, kids, |st|, cur, Top(st).path)
    {
      hide Rows, RootsNamed, Walking, Row, OpenDirs, Slashed, Kids;
      ghost var up := Top(st).path;
      var nlinks := nlinks0;
      ns, head := [], null;
      RowNone(fs, |st|, cur, up);
      ghost var all := Kids(fs, o, OpenDirs(), up, es, nlinks);
      var tail: FtsEnt? := null;
      ghost var kids: seq<Kid> := [];
      var i := 0;
      assert es[0..] == es;
      while i < |es|
        invariant 0 <= i <= |es| && Placed() && cur.info == D
        invariant Has(path, Slashed(up)) && len == |Slashed(up)|
        invariant Row(fs, ns, kids, |st|, cur, up) && |ns| == |kids| && head == EntAt(ns, 0)
          && tail == EntAt(ns, |ns| - 1)
        invariant forall j :: 0 <= j < |ns| ==> fresh(ns[j])
        invariant kids + Kids(fs, o, OpenDirs(), up, es[i..], nlinks) == all
      {
        var e := es[i];
        KidsStep(fs, o, OpenDirs(), up, es, i, nlinks);
        i := i + 1;
        if !o.seedot && IsDot(e.name) {
          continue;
        }
        var p: FtsEnt;
        ghost var kid: Kid;
        p, nlinks, kid := ReadEntry(e, nlinks, len, up);
        Append(ns, kids, tail, p, kid, |st|, cur, up);
        OneMoved(kids, kid, Kids(fs, o, OpenDirs(), up, es[i..], nlinks));
        ns, kids := ns + [p], kids + [kid];
        if head == null {
          head := p;
        }
        tail := p;
      }
      KidsEnd(fs, o, OpenDirs(), up, es, nlinks, kids);
    }

    /** `fts_build`: reads the current directory. If nothing is to be visited in it, the
        directory itself is marked as done or as unreadable. */
    method Build() returns (head: FtsEnt?, ghost ns: seq<FtsEnt>)
      requires Placed() && cur.info == D && Shows(path, Top(st).path) && NamesOk()
      modifies this`path, this`st, cur`info
      ensures Placed() && forall j :: 0 <= j < |ns| ==> fresh(ns[j])
      ensures old(Readable(fs, st))
      ensures !fs[Top(old(st)).dir].readable ==>
        head == null && st == Mark(old(st), DNR) && cur.info == DNR && path == old(path)
      ensures var s0 := old(st);
        fs[Top(s0).dir].readable ==>
          var kids := Below(fs, o, s0[|s0| - 1].above, Top(s0).path, Top(s0).dir);
          if kids == [] then head == null && st == Mark(s0, DP) && cur.info == DP && EmptyShown(path, Top(s0).path)
          else
            && st == s0 && cur.info == D && ns != [] && head == ns[0] && Row(fs, ns, kids, |s0|, cur, Top(s0).path)
            && Has(path, Slashed(Top(s0).path))
    {
      hide Rows, RootsNamed, Walking, Row, Kids, Slashed, Put, EmptyShown, Mark;
      DirAt();
      ghost var up := Top(st).path;
      BufferSteps(path, up);
      ns, head := [], null;
      var es, readable := fs[cur.ino].entries, fs[cur.ino].readable;
      if !readable {
        Finish(DNR);
        return;
      }
      var napp := if path[cur.pathlen - 1] == '/' then cur.pathlen - 1 else cur.pathlen;
      path := Put(path, napp, "/");
      var len := napp + 1;
      head, ns := ReadAll(es, Links(o, cur.nlink), len);
      BufferEnds(path, up);
      if head == null {
        path := Put(path, napp, ['\0']);
        Finish(DP);
      } else {
        path := Put(path, len, ['\0']);
      }
    }

    /** The path of an entry, behind that of its directory. */
    method Name(p: FtsEnt, ghost up: string)
      requires p.parent != null && p.parent.pathlen == |up| && up != "" && Has(path, up)
      modifies this`path
      ensures Shows(path, Join(up, p.name))
    {
      var t := if path[p.parent.pathlen - 1] == '/' then p.parent.pathlen - 1 else p.parent.pathlen;
      path := Put(path, t, "/");
      path := Put(path, t + 1, p.name + ['\0']);
      JoinSlashed(up, p.name);
      assert path[..t + 1] == Slashed(up);
    }

    /** `fts_load`: the path of a root, whose name becomes its last component. */
    method Load(p: FtsEnt)
      modifies this`path, p`name, p`pathlen
      ensures Shows(path, old(p.name)) && p.pathlen == |old(p.name)| && p.name == LastComponent(old(p.name))
    {
      p.pathlen := |p.name|;
      path := Put(path, 0, p.name + ['\0']);
      var cp := |p.name|;
      while cp > 0 && p.name[cp - 1] != '/'
        invariant 0 <= cp <= |p.name| && '/' !in p.name[cp..]
      {
        assert p.name[cp - 1..] == [p.name[cp - 1]] + p.name[cp..];
        cp := cp - 1;
      }
      LastFrom(p.name, cp);
      if cp > 0 && (cp - 1 > 0 || cp < |p.name|) {
        p.name := p.name[cp..];
      }
    }

    /** The first entry of a directory that has been read becomes the current one. */
    method Plunge(head: FtsEnt, ghost ns: seq<FtsEnt>, ghost kids: seq<Kid>)
      requires Placed() && Readable(fs, st) && fs[Top(st).dir].readable
      requires kids == Below(fs, o, st[|st| - 1].above, Top(st).path, Top(st).dir) && kids != []
      requires ns != [] && head == ns[0] && Row(fs, ns, kids, |st|, cur, Top(st).path)
      modifies this`cur, this`st, this`nodes, this`repr
      ensures Placed() && cur == head && st == Enter(old(st), kids) && repr == old(repr) + set n | n in ns
      ensures old(Remaining(fs, o, st)) == [Event(Top(st).info, Top(st).path, |st| - 1)] + Remaining(fs, o, st)
    {
      hide Row, Remaining, Below;
      assert ns[0] in ns;
      ghost var s0 := st;
      RowHead(fs, ns, kids, |st|, cur, Top(st).path);
      StepDown(fs, o, st);
      st := Enter(st, kids);
      nodes := nodes + [ns];
      repr := repr + set n | n in ns;
      cur := head;
      forall i | 0 <= i < |st|
        ensures RowAt(i)
      {
        if i < |s0| {
          assert old(RowAt(i));
        }
      }
    }

    /** Down into a directory that has been read. */
    method GoDown(head: FtsEnt, ghost ns: seq<FtsEnt>, ghost kids: seq<Kid>)
      requires Placed() && Readable(fs, st) && fs[Top(st).dir].readable
      requires kids == Below(fs, o, st[|st| - 1].above, Top(st).path, Top(st).dir) && kids != []
      requires ns != [] && head == ns[0] && Row(fs, ns, kids, |st|, cur, Top(st).path)
        && Has(path, Slashed(Top(st).path))
      modifies this`cur, this`path, this`st, this`nodes, this`repr
      ensures Going() && cur == head && st == Enter(old(st), kids) && repr == old(repr) + set n | n in ns
      ensures Shows(path, Top(st).path) && Top(st).info != DP
      ensures old(Remaining(fs, o, st)) == [Event(Top(st).info, Top(st).path, |st| - 1)] + Remaining(fs, o, st)
        && cur.info == Top(st).info && cur.level == |st| - 1
    {
      hide Row, Rows, Walking, RootsNamed, Remaining, Has, Shows, Slashed, Below;
      DirAt();
      ghost var up := Top(st).path;
      RowHead(fs, ns, kids, |st|, cur, up);
      SlashedHas(path, up);
      BelowFresh(fs, o, st);
      Name(head, up);
      ShownHas(path, Join(up, head.name));
      Plunge(head, ns, kids);
      LinksAt();
    }

    /** The links of the current entry. */
    lemma LinksAt()
      requires Placed()
      ensures st[|st| - 1].todo != [] && |nodes[|st| - 1]| == |st[|st| - 1].todo|
        && cur.link == EntAt(nodes[|st| - 1], 1) && cur.level == |st| - 1
      ensures cur.link == null ==> |st[|st| - 1].todo| == 1
      ensures cur.info == Top(st).info
      ensures |st| > 1 ==>
        nodes[|st| - 2] != [] && cur.parent == nodes[|st| - 2][0] && Top(st).path == Join(st[|st| - 1].path, cur.name)
      ensures |st| == 1 ==> cur.parent == rootParent
      ensures cur.parent != null && cur.parent.level == |st| - 2 && (|st| > 1 ==> cur.parent in repr)
      ensures cur.link != null ==> cur.link in repr && cur.link.level == |st| - 1
      ensures |st| > 1 ==> NameOk(cur.name)
    {
      hide Row, EntOk, RootsNamed, Walking;
      var n := |st| - 1;
      assert RowAt(n) && (n > 0 ==> RowAt(n - 1));
      RowHead(fs, nodes[n], st[n].todo, n, Parent(n), st[n].path);
      RowLevels(fs, nodes[n], st[n].todo, n, Parent(n), st[n].path);
      if n > 0 {
        RowLevels(fs, nodes[n - 1], st[n - 1].todo, n - 1, Parent(n - 1), st[n - 1].path);
      }
    }

    lemma FirstAt()
      requires Beginning()
      ensures cur.link != null && cur.link in repr
    {
      assert RowAt(0);
    }

    /** Back up to the directory that the current entry is in. */
    method GoUp(p: FtsEnt)
      requires Going() && NamesOk() && cur.info != D && cur.link == null && p == cur.parent && |st| > 1
      modifies this`cur, this`path, this`st, this`nodes, p`info
      ensures Going() && cur == p && cur.info == DP && Shows(path, Top(st).path) && cur.level == |st| - 1
        && Top(st).info == DP
      ensures old(Remaining(fs, o, st)) == [Event(DP, Top(st).path, |st| - 1)] + Remaining(fs, o, st)
    {
      hide Row, Remaining, Has, Shows, AllEnterable, Enterable, Put;
      ghost var s0, n := st, |st| - 1;
      LinksAt();
      StepUp(fs, o, st);
      WalkingUp(fs, st);
      JoinSlashed(st[n].path, cur.name);
      assert Level(fs, s0, n);
      assert RowAt(n - 1);
      RowHead(fs, nodes[n - 1], st[n - 1].todo, n - 1, Parent(n - 1), st[n - 1].path);
      PopShown(path, Top(st).path, st[n].path);
      st := st[..n];
      nodes := nodes[..n];
      cur := p;
      forall i | 0 <= i < |st|
        ensures RowAt(i)
      {
        assert old(RowAt(i));
      }
      DirAt();
      path := Put(path, p.pathlen, ['\0']);
      Finish(DP);
      if |st| > 1 {
        LinksAt();
      }
    }

    /** The directory that the entries of the last level are in. */
    lemma ParentShown(p: FtsEnt)
      requires Placed() && |st| > 1 && p in nodes[|st| - 1]
      ensures nodes[|st| - 2] != [] && nodes[|st| - 2][0].pathlen == |st[|st| - 1].path| && st[|st| - 1].path != ""
      ensures p.parent == nodes[|st| - 2][0]
    {
      hide Row, EntOk, AllEnterable;
      var n := |st| - 1;
      assert RowAt(n) && RowAt(n - 1) && Level(fs, st, n);
      RowHead(fs, nodes[n - 1], st[n - 1].todo, n - 1, Parent(n - 1), st[n - 1].path);
      if n - 1 > 0 {
        JoinSlashed(st[n - 1].path, nodes[n - 1][0].name);
      }
      RowParent(fs, nodes[n], st[n].todo, n, Parent(n), st[n].path, p);
    }

    /** The next entry of the same directory becomes the current one. */
    method Switch(p: FtsEnt)
      requires Placed() && cur.info != D && cur.link == p && |st| > 1
      modifies this`cur, this`st, this`nodes
      ensures Placed() && cur == p && st == Advance(old(st)) && p.parent == old(cur.parent)
      ensures old(Remaining(fs, o, st)) == [Event(Top(st).info, Top(st).path, |st| - 1)] + Remaining(fs, o, st)
    {
      hide Row, Remaining, AllEnterable, EntOk;
      ghost var s0, n := st, |st| - 1;
      LinksAt();
      StepNext(fs, o, st);
      assert RowAt(n);
      RowRest(fs, nodes[n], st[n].todo, n, Parent(n), st[n].path);
      RowHead(fs, nodes[n][1..], st[n].todo[1..], n, Parent(n), st[n].path);
      st := Advance(st);
      nodes := nodes[n := nodes[n][1..]];
      cur := p;
      forall i | 0 <= i < |st|
        ensures RowAt(i)
      {
        assert old(RowAt(i));
      }
    }

    /** On to the next entry of the same directory. */
    method GoNext(p: FtsEnt)
      requires Going() && cur.info != D && cur.link == p && |st| > 1
      modifies this`cur, this`path, this`st, this`nodes
      ensures Going() && cur == p && Shows(path, Top(st).path) && cur.info == Top(st).info && cur.level == |st| - 1
      ensures old(Remaining(fs, o, st)) == [Event(Top(st).info, Top(st).path, |st| - 1)] + Remaining(fs, o, st)
    {
      hide Remaining, Shows, Has, Rows, RootsNamed, Walking, Advance;
      ghost var up := st[|st| - 1].path;
      LinksAt();
      JoinSlashed(up, cur.name);
      PopShown(path, Top(st).path, up);
      CurListed();
      ParentShown(cur);
      Switch(p);
      AdvancePath(old(st));
      Name(p, up);
      LinksAt();
      ShownHas(path, Top(st).path);
    }

    lemma CurListed()
      requires Placed()
      ensures cur in nodes[|st| - 1]
    {
    }

    /** The first of the roots that are left. */
    method LoadRoot(p: FtsEnt)
      requires |st| == 1 && Rows() && Walking(fs, st) && RootsNamed(0) && nodes[0] != [] && p == nodes[0][0]
        && NamesOk()
      modifies this`path, this`cur, p`name, p`pathlen
      ensures Going() && cur == p && Shows(path, Top(st).path) && cur.info == Top(st).info && cur.level == 0
    {
      hide Row;
      assert RowAt(0);
      RowHead(fs, nodes[0], st[0].todo, 0, Parent(0), st[0].path);
      RowApart(fs, nodes[0], st[0].todo, 0, Parent(0), st[0].path);
      Load(p);
      cur := p;
      RowLoaded(Marking(fs, nodes[0], st[0].todo, 0, Parent(0), st[0].path, p, D));
      assert RowAt(0);
    }

    /** On to the next root. */
    method GoRoot(p: FtsEnt)
      requires Going() && NamesOk() && cur.info != D && cur.link == p && |st| == 1
      modifies this`cur, this`path, this`st, this`nodes, p`name, p`pathlen
      ensures Going() && cur == p && Shows(path, Top(st).path) && cur.info == Top(st).info && cur.level == |st| - 1
      ensures old(Remaining(fs, o, st)) == [Event(Top(st).info, Top(st).path, |st| - 1)] + Remaining(fs, o, st)
    {
      hide Row, Remaining;
      LinksAt();
      StepNext(fs, o, st);
      assert RowAt(0);
      RowRest(fs, nodes[0], st[0].todo, 0, Parent(0), st[0].path);
      st := Advance(st);
      nodes := nodes[0 := nodes[0][1..]];
      assert RowAt(0);
      LoadRoot(p);
    }

    /** On to the very first root. */
    method Begin(p: FtsEnt)
      requires Beginning() && NamesOk() && cur.link == p
      modifies this`cur, this`path, p`name, p`pathlen
      ensures Going() && cur == p && Shows(path, Top(st).path) && cur.info == Top(st).info && cur.level == |st| - 1
      ensures st == old(st) && AllEnterable(fs, [], st[0].todo)
      ensures Visits(fs, o, [], st[0].todo) == [Event(Top(st).info, Top(st).path, |st| - 1)] + Remaining(fs, o, st)
    {
      hide Row, Remaining, Visits;
      StepFirst(fs, o, st);
      LoadRoot(p);
    }

    /** Into the current directory, or past it. */
    method Descend() returns (p: FtsEnt, ghost e: Event)
      requires Going() && NamesOk() && cur.info == D
      modifies this, cur`info
      ensures Going() && NamesOk() && cur == p && e.info == p.info && e.level == p.level
      ensures old(Remaining(fs, o, st)) == [e] + Remaining(fs, o, st)
      ensures Shows(path, ShownPath(D, e)) && fresh(repr - old(repr))
    {
      hide Rows, Row, RootsNamed, Walking, Remaining, Below, Shows, Has, EmptyShown;
      ghost var s0 := st;
      DirAt();
      var head: FtsEnt?;
      ghost var ns: seq<FtsEnt>;
      head, ns := Build();
      if head == null {
        p := cur;
        e := Event(p.info, Top(s0).path, |s0| - 1);
        if p.info == DNR {
          StepUnreadable(fs, o, s0);
        } else {
          StepEmpty(fs, o, s0);
        }
        LinksAt();
        if |st| > 1 {
          NotSlashed(st[|st| - 1].path, cur.name, path);
        }
        if p.info == DP {
          EmptyShownPath(path, e);
        }
        return;
      }
      GoDown(head, ns, Below(fs, o, s0[|s0| - 1].above, Top(s0).path, Top(s0).dir));
      p := head;
      e := Event(p.info, Top(st).path, |st| - 1);
    }

    /** `fts_read`: the next event, or null when the walk is over. What is returned is what
        is next in the walk, with its path in the buffer, except exactly that an empty root
        directory given with a slash at its end loses that slash when it is left. */
    method Read() returns (p: FtsEnt?, ghost e: Event)
      requires Valid()
      modifies this, repr
      ensures Valid() && cur == p && fresh(repr - old(repr))
      ensures p == null <==> old(Pending()) == []
      ensures p != null ==> old(Pending()) == [e] + Pending() && e.info == p.info && e.level == p.level
      ensures p != null ==> Shows(path, ShownPath(old(cur.info), e))
      ensures p != null ==> (Shows(path, e.path) <==> ShownPath(old(cur.info), e) == e.path)
    {
      hide Rows, Row, RootsNamed, Walking, Remaining, Visits, Shows, Has, EmptyShown;
      e := Event(INIT, "", 0);
      p := cur;
      if p == null {
        return;
      }
      if p.info == INIT {
        FirstAt();
        p := p.link;
        Begin(p);
        LinksAt();
        e := Event(p.info, Top(st).path, |st| - 1);
        return;
      }
      if p.info == D {
        p, e := Descend();
        ShownPathIff(path, D, e);
        return;
      }
      LinksAt();
      var tmp := p;
      p := p.link;
      if p != null {
        if p.level == 0 {
          GoRoot(p);
        } else {
          GoNext(p);
        }
        LinksAt();
        e := Event(p.info, Top(st).path, |st| - 1);
        return;
      }
      p := tmp.parent;
      if p.level == -1 {
        StepDone(fs, o, st);
        cur, p := null, null;
        return;
      }
      GoUp(p);
      LinksAt();
      e := Event(p.info, Top(st).path, |st| - 1);
    }

    /** The roots, in the order given; none may be empty. */
    method ReadRoots(roots: seq<(string, Ino)>, parent: FtsEnt) returns (ok: bool, root: FtsEnt?, ghost ns: seq<FtsEnt>)
      ensures !ok <==> exists i :: 0 <= i < |roots| && roots[i].0 == ""
      ensures ok ==> |ns| == |roots| && root == EntAt(ns, 0) && Row(fs, ns, Roots(fs, o, roots), 0, parent, "")
      ensures ok ==> forall j :: 0 <= j < |ns| ==> fresh(ns[j]) && ns[j].name == roots[j].0 != ""
    {
      hide Row, StatInfo, Roots;
      var tmp: FtsEnt?;
      root, tmp := null, null;
      ghost var kids: seq<Kid> := [];
      ns := [];
      RowNone(fs, 0, parent, "");
      NoRoots(fs, o, roots);
      var i := 0;
      while i < |roots|
        invariant 0 <= i <= |roots| && |kids| == |ns| == i && kids == Roots(fs, o, roots[..i])
        invariant Row(fs, ns, kids, 0, parent, "") && root == EntAt(ns, 0) && tmp == EntAt(ns, |ns| - 1)
        invariant forall j :: 0 <= j < |ns| ==> fresh(ns[j]) && ns[j].name == roots[j].0 != ""
      {
        if |roots[i].0| == 0 {
          ok := false;
          return;
        }
        var l := Look(fs, o.logical || o.comfollow, roots[i].1);
        var info := StatInfo(l, roots[i].0, []);
        DirFound(fs, o.logical || o.comfollow, roots[i].1, roots[i].0, []);
        if info == DOT {
          info := D;
        }
        var p := new FtsEnt(roots[i].0, 0, info, 0, parent, LookIno(l),
          if l.Found? && l.file.Dir? then l.file.nlink else 0);
        ghost var kid := Kid(roots[i].0, info, LookIno(l));
        RootsSnoc(fs, o, roots, i);
        Append(ns, kids, tmp, p, kid, 0, parent, "");
        ns, kids := ns + [p], kids + [kid];
        if root == null {
          root := p;
        }
        tmp := p;
        i := i + 1;
      }
      assert roots[..|roots|] == roots;
      ok := true;
    }

    /** A dummy entry in front of the roots. */
    method Start(root: FtsEnt, parent: FtsEnt, ghost ns: seq<FtsEnt>, ghost kids: seq<Kid>)
      requires ns != [] && root == ns[0] && parent.level == -1 && NamesOk() && AllEnterable(fs, [], kids)
      requires Row(fs, ns, kids, 0, parent, "") && forall j :: 0 <= j < |ns| ==> ns[j].name == kids[j].path != ""
      modifies this
      ensures Beginning() && st == [Frame([], "", kids)] && fresh(repr - set n | n in ns)
    {
      hide Row, Walking;
      var dummy := new FtsEnt("", 0, INIT, 0, null, 0, 0);
      RowHead(fs, ns, kids, 0, parent, "");
      dummy.link := root;
      cur := dummy;
      rootParent := parent;
      st := [Frame([], "", kids)];
      nodes := [ns];
      repr := (set n | n in ns) + {dummy};
      OneLevel(fs, kids);
      assert RowAt(0) && dummy !in ns;
    }

    /** `fts_open`. Without a root there is a stream, but nothing that may be read from it. */
    static method Open(fs: FileSys, o: Options, roots: seq<(string, Ino)>) returns (sp: FtsStream?)
      requires forall d :: d in fs && fs[d].Dir? ==> forall i :: 0 <= i < |fs[d].entries| ==>
        NameOk(fs[d].entries[i].name)
      ensures sp == null <==> exists i :: 0 <= i < |roots| && roots[i].0 == ""
      ensures sp != null ==> fresh(sp) && sp.fs == fs && sp.o == o && fresh(sp.repr)
      ensures sp != null && roots != [] ==> sp.Valid() && sp.Pending() == Walk(fs, o, roots)
      ensures roots == [] ==> sp.cur != null && sp.cur.info == INIT && sp.cur.link == null
    {
      hide Row, Visits, StatInfo;
      sp := new FtsStream(fs, o);
      var parent := new FtsEnt("", 0, INIT, -1, null, 0, 0);
      var ok: bool, root: FtsEnt?;
      ghost var ns: seq<FtsEnt>;
      ok, root, ns := sp.ReadRoots(roots, parent);
      if !ok {
        return null;
      }
      if root == null {
        sp.cur := new FtsEnt("", 0, INIT, 0, null, 0, 0);
        return;
      }
      RootsEnterable(fs, o, roots);
      sp.Start(root, parent, ns, Roots(fs, o, roots));
    }

    lemma RootParent()
      requires Rows()
      ensures rootParent != null && rootParent.level == -1
    {
    }
  }

  /** The directories above a level are those that the levels are at. */
  lemma {:induction false} AboveAt(fs: FileSys, st: Stack, n: nat, i: nat)
    requires Walking(fs, st) && i <= n < |st|
    ensures st[i].todo != [] && |st[n].above| == n && (i < n ==> st[n].above[i] == st[i].todo[0].dir)
  {
    LevelNumber(fs, st, n);
    assert Level(fs, st, n) && Level(fs, st, i);
    if i < n {
      AboveAt(fs, st, n - 1, i);
      LevelNumber(fs, st, n - 1);
    }
  }

  lemma OpenAt(fs: FileSys, st: Stack, i: nat)
    requires Walking(fs, st) && i < |st|
    ensures var open := st[|st| - 1].above + [Top(st).dir];
      st[i].todo != [] && |open| == |st| && open[i] == st[i].todo[0].dir && (i + 1 < |st| ==> st[i].todo[0].info == D)
  {
    if i + 1 < |st| {
      assert Level(fs, st, i + 1);
    }
    AboveAt(fs, st, |st| - 1, i);
  }

  /** The first root of all. */
  lemma StepFirst(fs: FileSys, o: Options, st: Stack)
    requires Walking(fs, st) && |st| == 1
    ensures AllEnterable(fs, [], st[0].todo)
    ensures Visits(fs, o, [], st[0].todo) == [Event(Top(st).info, Top(st).path, 0)] + Remaining(fs, o, st)
  {
    assert Level(fs, st, 0);
    var rest := Visits(fs, o, [], st[0].todo[1..]);
    assert rest + [] == rest;
    Arrive(fs, o, st, rest);
  }

  lemma AdvancePath(st: Stack)
    requires st != [] && st[|st| - 1].todo != []
    ensures |Advance(st)| == |st| && Advance(st)[|st| - 1].path == st[|st| - 1].path
  {
  }

  lemma OneLevel(fs: FileSys, kids: seq<Kid>)
    requires AllEnterable(fs, [], kids) && kids != []
    ensures Walking(fs, [Frame([], "", kids)])
  {
    assert Level(fs, [Frame([], "", kids)], 0);
  }

  lemma NoRoots(fs: FileSys, o: Options, roots: seq<(string, Ino)>)
    ensures Roots(fs, o, roots[..0]) == []
  {
  }

  lemma RootsSnoc(fs: FileSys, o: Options, roots: seq<(string, Ino)>, i: nat)
    requires i < |roots|
    ensures |Roots(fs, o, roots[..i])| == i
    ensures var l := Look(fs, o.logical || o.comfollow, roots[i].1);
      var info := StatInfo(l, roots[i].0, []);
      Roots(fs, o, roots[..i + 1]) == Roots(fs, o,
        roots[..i]) + [Kid(roots[i].0, if info == DOT then D else info, LookIno(l))]
  {
  }

  lemma All(s: seq<Ino>)
    ensures s[0..] == s
  {
  }

  lemma OneMore(s: seq<Ino>, i: nat, ino: Ino)
    requires i < |s|
    ensures ino in s[i..] <==> s[i] == ino || ino in s[i + 1..]
    ensures s[i] == ino ==> ino in s
  {
    assert s[i..] == [s[i]] + s[i + 1..];
  }

  lemma DirFound(fs: FileSys, follow: bool, ino: Ino, name: string, above: seq<Ino>)
    ensures var l := Look(fs, follow, ino);
      StatInfo(l, name, above) != INIT && (IsDirInfo(StatInfo(l, name, above)) ==>
        l.Found? && l.ino in fs && fs[l.ino] == l.file && l.file.Dir?)
  {
  }

  lemma KidsStep(fs: FileSys, o: Options, above: seq<Ino>, path: string, es: seq<Entry>, i: nat, nlinks: int)
    requires i < |es|
    ensures var e, kids := es[i], Kids(fs, o, above, path, es[i..], nlinks);
      var l := Look(fs, o.logical, e.ino);
      var info := StatInfo(l, e.name, above);
      if !o.seedot && IsDot(e.name) then kids == Kids(fs, o, above, path, es[i + 1..], nlinks)
      else if Skipped(o, e, nlinks) then kids
        == [Kid(Join(path, e.name), NSOK, 0)] + Kids(fs, o, above, path, es[i + 1..], nlinks)
      else kids == [Kid(Join(path, e.name), info, LookIno(l))] + Kids(fs, o, above, path, es[i + 1..],
        if nlinks > 0 && IsDirInfo(info) then nlinks - 1 else nlinks)
  {
    assert es[i..][1..] == es[i + 1..];
  }

  lemma OneMoved<T>(a: seq<T>, x: T, b: seq<T>)
    ensures a + ([x] + b) == a + [x] + b
  {
  }

  lemma KidsEnd(fs: FileSys, o: Options, above: seq<Ino>, path: string, es: seq<Entry>, nlinks: int, kids: seq<Kid>)
    ensures kids + Kids(fs, o, above, path, es[|es|..], nlinks) == kids
  {
  }

  /** An empty root directory, given as `a/`, is entered as `a/` and left as `a`. */
  method LosingSlash() returns (entered: seq<char>, left: seq<char>, last: Info)
    ensures Shows(entered, "a/") && Shows(left, "a") && last == DP
  {
    hide FtsStream.Valid, FtsStream.Pending, FtsStream.Placed, Walk, Shows;
    var fs: FileSys := map[1 := Dir([], true, 2)];
    var sp := FtsStream.Open(fs, Options(false, false, false, false), [("a/", 1)]);
    EmptyWalk(fs, sp.o);
    ghost var events := sp.Pending();
    var p, e := sp.Read();
    assert e == events[0] == Event(D, "a/", 0) && sp.Pending() == events[1..];
    entered := sp.path;
    p, e := sp.Read();
    assert e == events[1..][0] == Event(DP, "a/", 0);
    left, last := sp.path, p.info;
    assert "a/"[..1] == "a";
  }

  lemma EmptyWalk(fs: FileSys, o: Options)
    requires fs == map[1 := Dir([], true, 2)] && o == Options(false, false, false, false)
    ensures Walk(fs, o, [("a/", 1)]) == [Event(D, "a/", 0), Event(DP, "a/", 0)]
  {
    var root := Kid("a/", D, 1);
    assert Roots(fs, o, [("a/", 1)]) == [root];
    RootsEnterable(fs, o, [("a/", 1)]);
    BelowEnterable(fs, o, [], root);
    var none: seq<Kid> := [];
    assert Below(fs, o, [], "a/", 1) == none && Visits(fs, o, [1], none) == [] && Visits(fs, o, [], none) == [];
    assert [] + [1] == [1];
    assert Visit(fs, o, [], root) == [Event(D, "a/", 0)] + [] + [Event(DP, "a/", 0)];
    assert [root][1..] == none;
    assert Visits(fs, o, [], [root]) == Visit(fs, o, [], root) + [];
  }
}
