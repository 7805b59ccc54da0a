/** Depth-first walks over a file system, which may be any graph of directories. */
module FtsWalk {
  import opened Basics

  /** A device and an inode number, taken together. */
  type Ino = nat

  datatype DType = DtDir | DtOther | DtUnknown

  datatype Entry = Entry(name: string, ino: Ino, dtype: DType)

  /** A symbolic link leads to a file that is none, or nowhere. */
  datatype File = Dir(entries: seq<Entry>, readable: bool, nlink: int) | Regular | Symlink(to: Option<Ino>) | Special

  type FileSys = map<Ino, File>

  datatype Options = Options(logical: bool, comfollow: bool, nostat: bool, seedot: bool)

  datatype Info = INIT | D | DC | DNR | DOT | DP | F | SL | SLNONE | NS | NSOK | DEFAULT

  datatype Event = Event(info: Info, path: string, level: nat)

  predicate IsDot(name: string) {
    name == "." || name == ".."
  }

  /** What `stat` or `lstat` finds. */
  datatype Looked = Gone | Dangling | Found(ino: Ino, file: File)

  function Look(fs: FileSys, follow: bool, ino: Ino): Looked {
    if ino !in fs then Gone
    else match fs[ino]
      case Symlink(to) =>
        if !follow then Found(ino, fs[ino])
        else if to == None || to.value !in fs || fs[to.value].Symlink? then Dangling
        else Found(to.value, fs[to.value])
      case _ => Found(ino, fs[ino])
  }

  /** `fts_stat`, for an entry below the directories `above`. */
  function StatInfo(l: Looked, name: string, above: seq<Ino>): Info {
    match l
    case Gone => NS
    case Dangling => SLNONE
    case Found(ino, Dir(_, _, _)) => if IsDot(name) then DOT else if ino in above then DC else D
    case Found(_, Symlink(_)) => SL
    case Found(_, Regular) => F
    case Found(_, Special) => DEFAULT
  }

  /** An entry as it has been read: its path, and if it is to be entered, which directory
      it is. */
  datatype Kid = Kid(path: string, info: Info, dir: Ino)

  function Join(path: string, name: string): string {
    if path != "" && path[|path| - 1] == '/' then path + name else path + "/" + name
  }

  predicate NameOk(name: string) {
    name != "" && '/' !in name
  }

  /** The path of a directory with a slash behind it. */
  function Slashed(path: string): string {
    if path != "" && path[|path| - 1] == '/' then path else path + "/"
  }

  lemma JoinSlashed(path: string, name: string)
    ensures Join(path, name) == Slashed(path) + name && path <= Slashed(path) <= Join(path, name)
  {
  }

  function LookIno(l: Looked): Ino {
    if l.Found? then l.ino else 0
  }

  predicate IsDirInfo(info: Info) {
    info == D || info == DC || info == DOT
  }

  /** The number of directories that may still turn up, to begin with; negative for no
      limit. */
  function Links(o: Options, nlink: int): int {
    if o.nostat && !o.logical then nlink - (if o.seedot then 0 else 2) else -1
  }

  predicate Skipped(o: Options, e: Entry, nlinks: int) {
    nlinks == 0 || (o.nostat && !o.logical && e.dtype == DtOther)
  }

  /** The entries of a directory in order; once all its subdirectories have been seen, or if
      its type is known, an entry is not looked at. */
  function Kids(fs: FileSys, o: Options, above: seq<Ino>, path: string, es: seq<Entry>, nlinks: int): seq<Kid> {
    if es == [] then []
    else if !o.seedot && IsDot(es[0].name) then Kids(fs, o, above, path, es[1..], nlinks)
    else if Skipped(o, es[0], nlinks) then
      [Kid(Join(path, es[0].name), NSOK, 0)] + Kids(fs, o, above, path, es[1..], nlinks)
    else
      var l := Look(fs, o.logical, es[0].ino);
      var info := StatInfo(l, es[0].name, above);
      [Kid(Join(path, es[0].name), info, LookIno(l))]
      + Kids(fs, o, above, path, es[1..], if nlinks > 0 && IsDirInfo(info) then nlinks - 1 else nlinks)
  }

  function Below(fs: FileSys, o: Options, above: seq<Ino>, path: string, dir: Ino): seq<Kid>
    requires dir in fs && fs[dir].Dir?
  {
    Kids(fs, o, above + [dir], path, fs[dir].entries, Links(o, fs[dir].nlink))
  }

  /** A directory to be entered is one that is not above. */
  predicate Enterable(fs: FileSys, above: seq<Ino>, kid: Kid) {
    kid.info == D ==> kid.dir in fs && fs[kid.dir].Dir? && kid.dir !in above
  }

  ghost predicate AllEnterable(fs: FileSys, above: seq<Ino>, kids: seq<Kid>) {
    forall i :: 0 <= i < |kids| ==> Enterable(fs, above, kids[i])
  }

  lemma {:induction false} KidsEnterable(fs: FileSys, o: Options, above: seq<Ino>, path: string, es: seq<Entry>,
                                         nlinks: int)
    ensures AllEnterable(fs, above, Kids(fs, o, above, path, es, nlinks))
    decreases |es|
  {
    if es != [] {
      var l := Look(fs, o.logical, es[0].ino);
      var info := StatInfo(l, es[0].name, above);
      KidsEnterable(fs, o, above, path, es[1..], nlinks);
      KidsEnterable(fs, o, above, path, es[1..], if nlinks > 0 && IsDirInfo(info) then nlinks - 1 else nlinks);
    }
  }

  ghost function Unused(fs: FileSys, above: seq<Ino>): set<Ino> {
    fs.Keys - set a | a in above
  }

  lemma UnusedLess(fs: FileSys, above: seq<Ino>, dir: Ino)
    requires dir in fs && dir !in above
    ensures |Unused(fs, above + [dir])| < |Unused(fs, above)|
  {
    var used := Unused(fs, above + [dir]);
    assert dir in Unused(fs, above) && dir !in used;
    assert used <= Unused(fs, above) - {dir};
    SubsetSize(used, Unused(fs, above) - {dir});
  }

  /** All that is reported for an entry: once for a file; for a directory that can be
      entered first and last, around all that is in it. */
  ghost function Visit(fs: FileSys, o: Options, above: seq<Ino>, kid: Kid): seq<Event>
    requires Enterable(fs, above, kid)
    decreases |Unused(fs, above)|, 1, 0
  {
    if kid.info != D then [Event(kid.info, kid.path, |above|)]
    else if !fs[kid.dir].readable then [Event(D, kid.path, |above|), Event(DNR, kid.path, |above|)]
    else
      UnusedLess(fs, above, kid.dir);
      KidsEnterable(fs, o, above + [kid.dir], kid.path, fs[kid.dir].entries, Links(o, fs[kid.dir].nlink));
      [Event(D, kid.path, |above|)]
      + Visits(fs, o, above + [kid.dir], Below(fs, o, above, kid.path, kid.dir))
      + [Event(DP, kid.path, |above|)]
  }

  ghost function Visits(fs: FileSys, o: Options, above: seq<Ino>, kids: seq<Kid>): seq<Event>
    requires AllEnterable(fs, above, kids)
    decreases |Unused(fs, above)|, 2, |kids|
  {
    if kids == [] then [] else Visit(fs, o, above, kids[0]) + Visits(fs, o, above, kids[1..])
  }

  // ----- a walk in progress ------------------------------------------------------------

  /** One level: the directories above, the path of the directory being read, and its
      entries from the current one on. */
  datatype Frame = Frame(above: seq<Ino>, path: string, todo: seq<Kid>)

  type Stack = seq<Frame>

  function Top(st: Stack): Kid
    requires st != [] && st[|st| - 1].todo != []
  {
    st[|st| - 1].todo[0]
  }

  ghost predicate Level(fs: FileSys, st: Stack, i: nat)
    requires i < |st|
  {
    && st[i].todo != [] && AllEnterable(fs, st[i].above, st[i].todo)
    && (if i == 0 then st[i].above == [] else
          st[i - 1].todo != [] && st[i - 1].todo[0].info == D
          && st[i].above == st[i - 1].above + [st[i - 1].todo[0].dir] && st[i].path == st[i - 1].todo[0].path)
  }

  /** Each level but the last is at a directory that has been entered. */
  ghost predicate Walking(fs: FileSys, st: Stack) {
    st != [] && Level(fs, st, |st| - 1) && forall i :: 0 <= i < |st| ==> Level(fs, st, i)
  }

  lemma {:induction false} LevelNumber(fs: FileSys, st: Stack, i: nat)
    requires Walking(fs, st) && i < |st|
    ensures |st[i].above| == i
  {
    assert Level(fs, st, i);
    if i > 0 {
      LevelNumber(fs, st, i - 1);
    }
  }

  lemma WalkingUp(fs: FileSys, st: Stack)
    requires Walking(fs, st) && |st| > 1
    ensures Walking(fs, st[..|st| - 1])
  {
    var up := st[..|st| - 1];
    forall i | 0 <= i < |up|
      ensures Level(fs, up, i)
    {
      assert Level(fs, st, i);
    }
  }

  /** What is still to be reported after the last level is finished. */
  ghost function Above(fs: FileSys, o: Options, st: Stack): seq<Event>
    requires Walking(fs, st)
    decreases |st|, 0
  {
    var n := |st| - 1;
    if n == 0 then [] else (WalkingUp(fs, st); [Event(DP, st[n].path, n - 1)] + After(fs, o, st[..n]))
  }

  /** What is still to be reported after the current entry is finished. */
  ghost function After(fs: FileSys, o: Options, st: Stack): seq<Event>
    requires Walking(fs, st)
    decreases |st|, 1
  {
    var n := |st| - 1;
    assert Level(fs, st, n);
    Visits(fs, o, st[n].above, st[n].todo[1..]) + Above(fs, o, st)
  }

  /** What is still to be reported when the current entry has just been, for the first time
      or for the last. */
  ghost function Remaining(fs: FileSys, o: Options, st: Stack): seq<Event>
    requires Walking(fs, st)
  {
    var n := |st| - 1;
    assert Level(fs, st, n);
    (if Top(st).info == D then Visit(fs, o, st[n].above, Top(st))[1..] else []) + After(fs, o, st)
  }

  function Mark(st: Stack, info: Info): Stack
    requires st != [] && st[|st| - 1].todo != []
  {
    var f := st[|st| - 1];
    st[|st| - 1 := f.(todo := f.todo[0 := f.todo[0].(info := info)])]
  }

  function Enter(st: Stack, kids: seq<Kid>): Stack
    requires st != [] && st[|st| - 1].todo != []
  {
    st + [Frame(st[|st| - 1].above + [Top(st).dir], Top(st).path, kids)]
  }

  function Advance(st: Stack): Stack
    requires st != [] && st[|st| - 1].todo != []
  {
    var f := st[|st| - 1];
    st[|st| - 1 := f.(todo := f.todo[1..])]
  }

  lemma WalkingLast(fs: FileSys, st: Stack, f: Frame)
    requires Walking(fs, st) && f.above == st[|st| - 1].above && f.path == st[|st| - 1].path
    requires f.todo != [] && AllEnterable(fs, f.above, f.todo)
    ensures Walking(fs, st[|st| - 1 := f])
  {
    var st' := st[|st| - 1 := f];
    forall i | 0 <= i < |st'|
      ensures Level(fs, st', i)
    {
      assert Level(fs, st, i);
    }
  }

  lemma AfterLast(fs: FileSys, o: Options, st: Stack, f: Frame)
    requires Walking(fs, st) && Walking(fs, st[|st| - 1 := f])
    requires st[|st| - 1].todo != [] && f.above == st[|st| - 1].above && f.path == st[|st| - 1].path && f.todo != []
      && f.todo[1..] == st[|st| - 1].todo[1..]
    ensures After(fs, o, st[|st| - 1 := f]) == After(fs, o, st)
  {
    assert Level(fs, st, |st| - 1);
    AboveLast(fs, o, st, f);
  }

  /** A directory that cannot be read. */
  lemma StepUnreadable(fs: FileSys, o: Options, st: Stack)
    requires Walking(fs, st) && Top(st).info == D && !fs[Top(st).dir].readable
    ensures Walking(fs, Mark(st, DNR))
    ensures Remaining(fs, o, st) == [Event(DNR, Top(st).path, |st| - 1)] + Remaining(fs, o, Mark(st, DNR))
  {
    Marked(fs, o, st, DNR);
  }

  lemma Marked(fs: FileSys, o: Options, st: Stack, info: Info)
    requires Walking(fs, st) && info != D
    ensures Walking(fs, Mark(st, info)) && Remaining(fs, o, Mark(st, info)) == After(fs, o, st)
      && |st[|st| - 1].above| == |st| - 1
  {
    var n := |st| - 1;
    LevelNumber(fs, st, n);
    assert Level(fs, st, n);
    var f := st[n].(todo := st[n].todo[0 := st[n].todo[0].(info := info)]);
    WalkingLast(fs, st, f);
    AfterLast(fs, o, st, f);
  }

  /** A directory with nothing in it. */
  lemma StepEmpty(fs: FileSys, o: Options, st: Stack)
    requires Walking(fs, st) && Top(st).info == D && Top(st).dir in fs && fs[Top(st).dir].Dir?
      && fs[Top(st).dir].readable
    requires Below(fs, o, st[|st| - 1].above, Top(st).path, Top(st).dir) == []
    ensures Walking(fs, Mark(st, DP))
    ensures Remaining(fs, o, st) == [Event(DP, Top(st).path, |st| - 1)] + Remaining(fs, o, Mark(st, DP))
  {
    var n := |st| - 1;
    Marked(fs, o, st, DP);
    LevelNumber(fs, st, n);
    assert Level(fs, st, n);
    var v := Visit(fs, o, st[n].above, Top(st));
    var none: seq<Kid> := [];
    assert Visits(fs, o, st[n].above + [Top(st).dir], none) == [];
    assert v == [Event(D, Top(st).path, n)] + [] + [Event(DP, Top(st).path, n)];
    assert v[1..] == [Event(DP, Top(st).path, n)];
  }

  /** The entry that has become the current one is reported. */
  lemma Arrive(fs: FileSys, o: Options, st: Stack, rest: seq<Event>)
    requires Walking(fs, st) && rest == After(fs, o, st)
    ensures Visit(fs, o, st[|st| - 1].above, Top(st)) + rest
      == [Event(Top(st).info, Top(st).path, |st| - 1)] + Remaining(fs, o, st)
  {
    var n := |st| - 1;
    LevelNumber(fs, st, n);
    assert Level(fs, st, n);
    var v := Visit(fs, o, st[n].above, Top(st));
    assert v == [v[0]] + v[1..];
  }

  /** The first entry of a directory. */
  lemma StepDown(fs: FileSys, o: Options, st: Stack)
    requires Walking(fs, st) && Top(st).info == D && Top(st).dir in fs && fs[Top(st).dir].Dir?
      && fs[Top(st).dir].readable
    requires Below(fs, o, st[|st| - 1].above, Top(st).path, Top(st).dir) != []
    ensures var st' := Enter(st, Below(fs, o, st[|st| - 1].above, Top(st).path, Top(st).dir));
      Walking(fs, st') && Remaining(fs, o, st) == [Event(Top(st').info, Top(st').path, |st|)] + Remaining(fs, o, st')
  {
    hide Visit, Above, Below;
    var n := |st| - 1;
    var kid, above := Top(st), st[n].above;
    var kids := Below(fs, o, above, kid.path, kid.dir);
    var st' := Enter(st, kids);
    LevelNumber(fs, st, n);
    assert Level(fs, st, n);
    BelowEnterable(fs, o, above, kid);
    forall i | 0 <= i < |st'|
      ensures Level(fs, st', i)
    {
      if i < |st| {
        assert Level(fs, st, i);
      }
    }
    var dp := Event(DP, kid.path, n);
    AboveEntered(fs, o, st, kids);
    Arrive(fs, o, st', After(fs, o, st'));
    DirVisit(fs, o, above, kid);
    var v, vs := Visit(fs, o, above + [kid.dir], kids[0]), Visits(fs, o, above + [kid.dir], kids[1..]);
    Regroup(v + vs, [dp], After(fs, o, st));
    Regroup(v, vs, [dp] + After(fs, o, st));
  }

  lemma BelowEnterable(fs: FileSys, o: Options, above: seq<Ino>, kid: Kid)
    requires kid.dir in fs && fs[kid.dir].Dir?
    ensures AllEnterable(fs, above + [kid.dir], Below(fs, o, above, kid.path, kid.dir))
  {
    KidsEnterable(fs, o, above + [kid.dir], kid.path, fs[kid.dir].entries, Links(o, fs[kid.dir].nlink));
  }

  lemma AboveEntered(fs: FileSys, o: Options, st: Stack, kids: seq<Kid>)
    requires Walking(fs, st) && Walking(fs, Enter(st, kids))
    ensures Above(fs, o, Enter(st, kids)) == [Event(DP, Top(st).path, |st| - 1)] + After(fs, o, st)
  {
    hide After;
    assert Enter(st, kids)[..|st|] == st;
  }

  lemma DirVisit(fs: FileSys, o: Options, above: seq<Ino>, kid: Kid)
    requires Enterable(fs, above, kid) && kid.info == D && fs[kid.dir].readable
      && AllEnterable(fs, above + [kid.dir], Below(fs, o, above, kid.path, kid.dir))
    ensures Visit(fs, o, above, kid)[1..]
      == Visits(fs, o, above + [kid.dir], Below(fs, o, above, kid.path, kid.dir)) + [Event(DP, kid.path, |above|)]
  {
  }

  /** The next entry on the same level. */
  lemma StepNext(fs: FileSys, o: Options, st: Stack)
    requires Walking(fs, st) && Top(st).info != D && |st[|st| - 1].todo| > 1
    ensures var st' := Advance(st);
      Walking(fs, st') && Remaining(fs, o, st)
        == [Event(Top(st').info, Top(st').path, |st| - 1)] + Remaining(fs, o, st')
  {
    hide Visit, Above;
    var n := |st| - 1;
    assert Level(fs, st, n);
    var f := st[n];
    var g := f.(todo := f.todo[1..]);
    var st' := Advance(st);
    WalkingLast(fs, st, g);
    AboveLast(fs, o, st, g);
    Arrive(fs, o, st', After(fs, o, st'));
    Regroup(Visit(fs, o, f.above, g.todo[0]), Visits(fs, o, f.above, g.todo[1..]), Above(fs, o, st));
  }

  lemma AboveLast(fs: FileSys, o: Options, st: Stack, f: Frame)
    requires Walking(fs, st) && Walking(fs, st[|st| - 1 := f]) && f.path == st[|st| - 1].path
    ensures Above(fs, o, st[|st| - 1 := f]) == Above(fs, o, st)
  {
    assert st[|st| - 1 := f][..|st| - 1] == st[..|st| - 1];
  }

  /** Back in the directory above. */
  lemma StepUp(fs: FileSys, o: Options, st: Stack)
    requires Walking(fs, st) && Top(st).info != D && |st[|st| - 1].todo| == 1 && |st| > 1
    ensures var st' := Mark(st[..|st| - 1], DP);
      Walking(fs, st') && Remaining(fs, o, st) == [Event(DP, Top(st').path, |st| - 2)] + Remaining(fs, o, st')
  {
    var n := |st| - 1;
    assert Level(fs, st, n);
    WalkingUp(fs, st);
    Marked(fs, o, st[..n], DP);
    var none: seq<Kid> := [];
    assert st[n].todo[1..] == none && Visits(fs, o, st[n].above, none) == [];
    assert Above(fs, o, st) == [Event(DP, st[n].path, n - 1)] + After(fs, o, st[..n]);
  }

  /** The end of the last root. */
  lemma StepDone(fs: FileSys, o: Options, st: Stack)
    requires Walking(fs, st) && Top(st).info != D && |st[|st| - 1].todo| == 1 && |st| == 1
    ensures Remaining(fs, o, st) == []
  {
    assert Level(fs, st, 0);
    var none: seq<Kid> := [];
    assert st[0].todo[1..] == none && Visits(fs, o, st[0].above, none) == [];
    assert Above(fs, o, st) == [];
  }

  // ----- the whole walk -------------------------------------------------------------------

  /** The roots as they are when the walk begins. */
  function Roots(fs: FileSys, o: Options, roots: seq<(string, Ino)>): seq<Kid> {
    seq(|roots|, i requires 0 <= i < |roots| =>
      var l := Look(fs, o.logical || o.comfollow, roots[i].1);
      var info := StatInfo(l, roots[i].0, []);
      Kid(roots[i].0, if info == DOT then D else info, LookIno(l)))
  }

  lemma RootsEnterable(fs: FileSys, o: Options, roots: seq<(string, Ino)>)
    ensures AllEnterable(fs, [], Roots(fs, o, roots))
  {
  }

  ghost function Walk(fs: FileSys, o: Options, roots: seq<(string, Ino)>): seq<Event> {
    RootsEnterable(fs, o, roots);
    Visits(fs, o, [], Roots(fs, o, roots))
  }

  /** Reads events as brackets: what is entered is left again, the last entered first, and
      everything else lies at the depth of what is open. */
  function Open(events: seq<Event>, open: seq<string>): Option<seq<string>> {
    if events == [] then Some(open)
    else
      var e := events[0];
      if e.info == D then if e.level == |open| then Open(events[1..], open + [e.path]) else None
      else if e.info == DP || e.info == DNR then
        if open != [] && open[|open| - 1] == e.path && e.level == |open| - 1 then Open(events[1..],
          open[..|open| - 1]) else None
      else if e.level == |open| then Open(events[1..], open) else None
  }

  lemma {:induction false} OpenAppend(a: seq<Event>, b: seq<Event>, open: seq<string>)
    requires Open(a, open).Some?
    ensures Open(a + b, open) == Open(b, Open(a, open).value)
    decreases |a|
  {
    if a == [] {
      assert a + b == b;
    } else {
      assert (a + b)[1..] == a[1..] + b;
      var e := a[0];
      OpenAppend(a[1..], b, if e.info == D then open + [e.path]
        else if e.info == DP || e.info == DNR then open[..|open| - 1] else open);
    }
  }

  /** Fresh entries are never in a state that only a finished directory has. */
  ghost predicate Fresh(kids: seq<Kid>) {
    forall i :: 0 <= i < |kids| ==> kids[i].info != DP && kids[i].info != DNR && kids[i].info != INIT
  }

  lemma {:induction false} KidsFresh(fs: FileSys, o: Options, above: seq<Ino>, path: string, es: seq<Entry>,
                                     nlinks: int)
    ensures Fresh(Kids(fs, o, above, path, es, nlinks))
    decreases |es|
  {
    if es != [] {
      var info := StatInfo(Look(fs, o.logical, es[0].ino), es[0].name, above);
      KidsFresh(fs, o, above, path, es[1..], nlinks);
      KidsFresh(fs, o, above, path, es[1..], if nlinks > 0 && IsDirInfo(info) then nlinks - 1 else nlinks);
    }
  }

  /** Whatever is reported for entries is well nested. */
  lemma {:induction false} VisitNested(fs: FileSys, o: Options, above: seq<Ino>, kid: Kid, open: seq<string>)
    requires Enterable(fs, above, kid) && Fresh([kid]) && |open| == |above|
    ensures Open(Visit(fs, o, above, kid), open) == Some(open)
    decreases |Unused(fs, above)|, 1, 0
  {
    var v := Visit(fs, o, above, kid);
    assert kid == [kid][0];
    if kid.info == D {
      var d, dp := Event(D, kid.path, |above|), Event(DP, kid.path, |above|);
      var inner := open + [kid.path];
      assert inner[..|open|] == open;
      if !fs[kid.dir].readable {
        var dnr := Event(DNR, kid.path, |above|);
        assert v == [d, dnr] && v[1..] == [dnr] && v[1..][1..] == [];
        assert Open([dnr], inner) == Open([], open);
      } else {
        var es, above' := fs[kid.dir].entries, above + [kid.dir];
        UnusedLess(fs, above, kid.dir);
        KidsEnterable(fs, o, above', kid.path, es, Links(o, fs[kid.dir].nlink));
        KidsFresh(fs, o, above', kid.path, es, Links(o, fs[kid.dir].nlink));
        var kids := Below(fs, o, above, kid.path, kid.dir);
        VisitsNested(fs, o, above', kids, inner);
        var vs := Visits(fs, o, above', kids);
        OpenAppend(vs, [dp], inner);
        assert [dp][1..] == [];
        assert Open([dp], inner) == Open([], open);
        assert v == [d] + (vs + [dp]) && v[1..] == vs + [dp];
      }
    } else {
      assert v[1..] == [];
    }
  }

  lemma {:induction false} VisitsNested(fs: FileSys, o: Options, above: seq<Ino>, kids: seq<Kid>, open: seq<string>)
    requires AllEnterable(fs, above, kids) && Fresh(kids) && |open| == |above|
    ensures Open(Visits(fs, o, above, kids), open) == Some(open)
    decreases |Unused(fs, above)|, 2, |kids|
  {
    if kids != [] {
      assert [kids[0]][0] == kids[0];
      VisitNested(fs, o, above, kids[0], open);
      VisitsNested(fs, o, above, kids[1..], open);
      OpenAppend(Visit(fs, o, above, kids[0]), Visits(fs, o, above, kids[1..]), open);
    }
  }

  lemma WalkNested(fs: FileSys, o: Options, roots: seq<(string, Ino)>)
    ensures Open(Walk(fs, o, roots), []) == Some([])
  {
    RootsEnterable(fs, o, roots);
    VisitsNested(fs, o, [], Roots(fs, o, roots), []);
  }

  // ----- depth ------------------------------------------------------------------------------

  ghost predicate Shallow(events: seq<Event>, depth: nat) {
    forall i :: 0 <= i < |events| ==> events[i].level <= depth
  }

  lemma {:induction false} DistinctSize(s: seq<Ino>, all: set<Ino>)
    requires Distinct(s) && forall a :: a in s ==> a in all
    ensures |s| <= |all|
  {
    if s != [] {
      var rest := s[..|s| - 1];
      assert forall a :: a in rest ==> a in all - {s[|s| - 1]} by {
        assert forall i :: 0 <= i < |rest| ==> rest[i] == s[i] != s[|s| - 1];
      }
      DistinctSize(rest, all - {s[|s| - 1]});
    }
  }

  function Dirs(fs: FileSys): set<Ino> {
    set d | d in fs && fs[d].Dir?
  }

  /** However the directories are linked, a walk goes no deeper than there are directories. */
  lemma {:induction false} VisitDepth(fs: FileSys, o: Options, above: seq<Ino>, kid: Kid)
    requires Enterable(fs, above, kid) && Distinct(above) && forall a :: a in above ==> a in Dirs(fs)
    ensures Shallow(Visit(fs, o, above, kid), |Dirs(fs)|)
    decreases |Unused(fs, above)|, 1, 0
  {
    DistinctSize(above, Dirs(fs));
    if kid.info == D && fs[kid.dir].readable {
      UnusedLess(fs, above, kid.dir);
      KidsEnterable(fs, o, above + [kid.dir], kid.path, fs[kid.dir].entries, Links(o, fs[kid.dir].nlink));
      VisitsDepth(fs, o, above + [kid.dir], Below(fs, o, above, kid.path, kid.dir));
    }
  }

  lemma {:induction false} VisitsDepth(fs: FileSys, o: Options, above: seq<Ino>, kids: seq<Kid>)
    requires AllEnterable(fs, above, kids) && Distinct(above) && forall a :: a in above ==> a in Dirs(fs)
    ensures Shallow(Visits(fs, o, above, kids), |Dirs(fs)|)
    decreases |Unused(fs, above)|, 2, |kids|
  {
    if kids != [] {
      VisitDepth(fs, o, above, kids[0]);
      VisitsDepth(fs, o, above, kids[1..]);
    }
  }

  lemma WalkDepth(fs: FileSys, o: Options, roots: seq<(string, Ino)>)
    ensures Shallow(Walk(fs, o, roots), |set d | d in fs && fs[d].Dir?|)
  {
    RootsEnterable(fs, o, roots);
    VisitsDepth(fs, o, [], Roots(fs, o, roots));
    assert Dirs(fs) == set d | d in fs && fs[d].Dir?;
  }

  // ----- the link count --------------------------------------------------------------------

  /** Files that are not directories, whether they have been looked at or not. */
  function Plain(info: Info): Info {
    match info
    case F => NSOK
    case SL => NSOK
    case DEFAULT => NSOK
    case NS => NSOK
    case _ => info
  }

  function PlainKid(k: Kid): Kid {
    Kid(k.path, Plain(k.info), if k.info == D then k.dir else 0)
  }

  function PlainKids(ks: seq<Kid>): seq<Kid> {
    if ks == [] then [] else [PlainKid(ks[0])] + PlainKids(ks[1..])
  }

  function PlainEvents(es: seq<Event>): seq<Event> {
    seq(|es|, i requires 0 <= i < |es| => es[i].(info := Plain(es[i].info)))
  }

  /** The entries that are shown and are directories. */
  function Directories(fs: FileSys, o: Options, es: seq<Entry>): nat {
    if es == [] then 0
    else
      Directories(fs, o, es[1..])
      + if (o.seedot || !IsDot(es[0].name)) && es[0].ino in fs && fs[es[0].ino].Dir? then 1 else 0
  }

  /** Types in directory entries, where given, are right. */
  ghost predicate Typed(fs: FileSys, es: seq<Entry>) {
    forall i :: 0 <= i < |es| && es[i].dtype == DtOther ==> es[i].ino !in fs || !fs[es[i].ino].Dir?
  }

  function Every(o: Options): Options {
    o.(nostat := false)
  }

  /** Not looking at entries once enough directories have been seen changes nothing but how
      other files are reported, as long as the count was enough. */
  lemma {:induction false} KidsPlain(fs: FileSys, o: Options, above: seq<Ino>, path: string, es: seq<Entry>,
                                     nlinks: int)
    requires !o.logical && Typed(fs, es) && (nlinks < 0 || nlinks >= Directories(fs, o, es))
    ensures PlainKids(Kids(fs, o, above, path, es, nlinks)) == PlainKids(Kids(fs, Every(o), above, path, es, -1))
    decreases |es|
  {
    if es != [] {
      var e, rest := es[0], es[1..];
      var l := Look(fs, false, e.ino);
      var info := StatInfo(l, e.name, above);
      var left := if nlinks > 0 && IsDirInfo(info) then nlinks - 1 else nlinks;
      if !o.seedot && IsDot(e.name) {
        KidsPlain(fs, o, above, path, rest, nlinks);
      } else {
        var full := Kid(Join(path, e.name), info, LookIno(l));
        PlainCons(full, Kids(fs, Every(o), above, path, rest, -1));
        if Skipped(o, e, nlinks) {
          KidsPlain(fs, o, above, path, rest, nlinks);
          PlainCons(Kid(Join(path, e.name), NSOK, 0), Kids(fs, o, above, path, rest, nlinks));
        } else {
          KidsPlain(fs, o, above, path, rest, left);
          PlainCons(full, Kids(fs, o, above, path, rest, left));
        }
      }
    }
  }

  lemma PlainCons(k: Kid, ks: seq<Kid>)
    ensures PlainKids([k] + ks) == [PlainKid(k)] + PlainKids(ks)
  {
    assert ([k] + ks)[1..] == ks;
  }

  /** The shortcut is right for every directory: its link count, as far as it is used, is
      negative or not less than the number of directories in it. */
  ghost predicate CountsRight(fs: FileSys, o: Options) {
    forall d :: d in fs && fs[d].Dir? ==>
      Typed(fs, fs[d].entries) && (Links(o, fs[d].nlink) < 0
        || Links(o, fs[d].nlink) >= Directories(fs, o, fs[d].entries))
  }

  /** The links of a directory, as far as they are used, are enough for its subdirectories. */
  predicate EnoughLinks(fs: FileSys, o: Options, dir: Ino)
    requires dir in fs && fs[dir].Dir?
  {
    Links(o, fs[dir].nlink) < 0 || Links(o, fs[dir].nlink) >= Directories(fs, o, fs[dir].entries)
  }

  /** They are for every directory that a walk without the shortcut reads from here on. */
  ghost predicate CountsVisit(fs: FileSys, o: Options, above: seq<Ino>, kid: Kid)
    requires Enterable(fs, above, kid)
    decreases |Unused(fs, above)|, 1, 0
  {
    if kid.info == D && fs[kid.dir].readable then
      UnusedLess(fs, above, kid.dir);
      BelowEnterable(fs, Every(o), above, kid);
      && EnoughLinks(fs, o, kid.dir)
      && CountsVisits(fs, o, above + [kid.dir], Below(fs, Every(o), above, kid.path, kid.dir))
    else true
  }

  ghost predicate CountsVisits(fs: FileSys, o: Options, above: seq<Ino>, kids: seq<Kid>)
    requires AllEnterable(fs, above, kids)
    decreases |Unused(fs, above)|, 2, |kids|
  {
    kids != [] ==> CountsVisit(fs, o, above, kids[0]) && CountsVisits(fs, o, above, kids[1..])
  }

  ghost predicate AllTyped(fs: FileSys) {
    forall d :: d in fs && fs[d].Dir? ==> Typed(fs, fs[d].entries)
  }

  lemma {:induction false} VisitPlain(fs: FileSys, o: Options, above: seq<Ino>, a: Kid, b: Kid)
    requires !o.logical && AllTyped(fs) && Enterable(fs, above, a) && Enterable(fs, above, b)
      && CountsVisit(fs, o, above, b)
      && PlainKid(a) == PlainKid(b)
    ensures PlainEvents(Visit(fs, o, above, a)) == PlainEvents(Visit(fs, Every(o), above, b))
    decreases |Unused(fs, above)|, 1, 0
  {
    if a.info == D && fs[a.dir].readable {
      var es, above' := fs[a.dir].entries, above + [a.dir];
      UnusedLess(fs, above, a.dir);
      KidsEnterable(fs, o, above', a.path, es, Links(o, fs[a.dir].nlink));
      KidsEnterable(fs, Every(o), above', a.path, es, -1);
      KidsPlain(fs, o, above', a.path, es, Links(o, fs[a.dir].nlink));
      var ka, kb := Below(fs, o, above, a.path, a.dir), Below(fs, Every(o), above, b.path, b.dir);
      VisitsPlain(fs, o, above', ka, kb);
      var va, vb := Visits(fs, o, above', ka), Visits(fs, Every(o), above', kb);
      var d, dp := Event(D, a.path, |above|), Event(DP, a.path, |above|);
      PlainAppend([d] + va, [dp]);
      PlainAppend([d], va);
      PlainAppend([d] + vb, [dp]);
      PlainAppend([d], vb);
    }
  }

  lemma {:induction false} VisitsPlain(fs: FileSys, o: Options, above: seq<Ino>, a: seq<Kid>, b: seq<Kid>)
    requires !o.logical && AllTyped(fs) && AllEnterable(fs, above, a) && AllEnterable(fs, above, b)
      && CountsVisits(fs, o, above, b)
      && PlainKids(a) == PlainKids(b)
    ensures PlainEvents(Visits(fs, o, above, a)) == PlainEvents(Visits(fs, Every(o), above, b))
    decreases |Unused(fs, above)|, 2, |a|
  {
    SameSize(a);
    SameSize(b);
    if a != [] {
      VisitPlain(fs, o, above, a[0], b[0]);
      assert PlainKids(a)[1..] == PlainKids(b)[1..];
      VisitsPlain(fs, o, above, a[1..], b[1..]);
      PlainAppend(Visit(fs, o, above, a[0]), Visits(fs, o, above, a[1..]));
      PlainAppend(Visit(fs, Every(o), above, b[0]), Visits(fs, Every(o), above, b[1..]));
    }
  }

  lemma {:induction false} SameSize(ks: seq<Kid>)
    ensures |PlainKids(ks)| == |ks|
    ensures ks != [] ==> PlainKids(ks)[0] == PlainKid(ks[0]) && PlainKids(ks)[1..] == PlainKids(ks[1..])
  {
    if ks != [] {
      SameSize(ks[1..]);
    }
  }

  lemma PlainAppend(a: seq<Event>, b: seq<Event>)
    ensures PlainEvents(a + b) == PlainEvents(a) + PlainEvents(b)
  {
  }

  /** In one directory whose types are not given, every subdirectory is recognised exactly
      when the count is negative or enough. */
  lemma {:induction false} KidsPlainIff(fs: FileSys, o: Options, above: seq<Ino>, path: string, es: seq<Entry>,
                                        nlinks: int)
    requires !o.logical && Typed(fs, es)
    ensures PlainKids(Kids(fs, o, above, path, es, nlinks)) == PlainKids(Kids(fs, Every(o), above, path, es, -1))
      <==> nlinks < 0 || nlinks >= Directories(fs, o, es)
    decreases |es|
  {
    if nlinks < 0 || nlinks >= Directories(fs, o, es) {
      KidsPlain(fs, o, above, path, es, nlinks);
    } else {
      var e, rest := es[0], es[1..];
      var l := Look(fs, false, e.ino);
      var info := StatInfo(l, e.name, above);
      var left := if nlinks > 0 && IsDirInfo(info) then nlinks - 1 else nlinks;
      if !o.seedot && IsDot(e.name) {
        KidsPlainIff(fs, o, above, path, rest, nlinks);
      } else {
        var full := Kid(Join(path, e.name), info, LookIno(l));
        PlainCons(full, Kids(fs, Every(o), above, path, rest, -1));
        var after := if Skipped(o, e, nlinks) then nlinks else left;
        PlainCons(if Skipped(o, e, nlinks) then Kid(Join(path, e.name), NSOK, 0) else full,
          Kids(fs, o, above, path, rest, after));
        var a, b := PlainKids(Kids(fs, o, above, path, es, nlinks)), PlainKids(Kids(fs, Every(o), above, path, es, -1));
        if after < Directories(fs, o, rest) {
          KidsPlainIff(fs, o, above, path, rest, after);
          assert a[1..] == PlainKids(Kids(fs, o, above, path, rest, after))
            && b[1..] == PlainKids(Kids(fs, Every(o), above, path, rest, -1));
          assert a != b;
        } else {
          assert Skipped(o, e, nlinks) && IsDirInfo(info);
          assert a[0].info == NSOK && b[0].info == info;
        }
      }
    }
  }

  /** Two subdirectories, and a count that is one short: the second is taken for another
      file. */
  lemma CountOneShort()
    ensures var sub := Dir([], true, 2);
      var es := [Entry("a", 1, DtUnknown), Entry("b", 2, DtUnknown)];
      var fs: FileSys := map[0 := Dir(es, true, 3), 1 := sub, 2 := sub];
      var o := Options(false, false, true, false);
      && Kids(fs, o, [0], "r", es, Links(o, 3)) == [Kid("r/a", D, 1), Kid("r/b", NSOK, 0)]
      && Kids(fs, Every(o), [0], "r", es, -1) == [Kid("r/a", D, 1), Kid("r/b", D, 2)]
  {
    var sub := Dir([], true, 2);
    var a, b := Entry("a", 1, DtUnknown), Entry("b", 2, DtUnknown);
    var fs: FileSys := map[0 := Dir([a, b], true, 3), 1 := sub, 2 := sub];
    var o := Options(false, false, true, false);
    assert [a, b][1..] == [b] && [b][1..] == [];
    assert "a"[0] != "."[0] && "b"[0] != "."[0] && !IsDot("a") && !IsDot("b");
    assert Join("r", "a") == "r/a" && Join("r", "b") == "r/b";
    assert StatInfo(Look(fs, false, 1), "a", [0]) == D && StatInfo(Look(fs, false, 2), "b", [0]) == D;
    assert Kids(fs, o, [0], "r", [b], 0) == [Kid("r/b", NSOK, 0)];
    assert Kids(fs, Every(o), [0], "r", [b], -1) == [Kid("r/b", D, 2)];
  }

  /** The same entries, of which some may have been skipped. */
  ghost predicate SameShape(a: seq<Kid>, b: seq<Kid>) {
    |a| == |b| && forall i :: 0 <= i < |a| ==>
      a[i].path == b[i].path && (a[i].info == b[i].info == D ==> a[i].dir == b[i].dir)
  }

  lemma {:induction false} KidsShape(fs: FileSys, o: Options, above: seq<Ino>, path: string, es: seq<Entry>,
                                     nlinks: int)
    requires !o.logical
    ensures SameShape(Kids(fs, o, above, path, es, nlinks), Kids(fs, Every(o), above, path, es, -1))
    decreases |es|
  {
    if es != [] {
      var info := StatInfo(Look(fs, false, es[0].ino), es[0].name, above);
      KidsShape(fs, o, above, path, es[1..], nlinks);
      KidsShape(fs, o, above, path, es[1..], if nlinks > 0 && IsDirInfo(info) then nlinks - 1 else nlinks);
    }
  }

  lemma {:induction false} VisitLevels(fs: FileSys, o: Options, above: seq<Ino>, kid: Kid)
    requires Enterable(fs, above, kid)
    ensures forall i :: 0 <= i < |Visit(fs, o, above, kid)| ==> Visit(fs, o, above, kid)[i].level >= |above|
    decreases |Unused(fs, above)|, 1, 0
  {
    if kid.info == D && fs[kid.dir].readable {
      UnusedLess(fs, above, kid.dir);
      BelowEnterable(fs, o, above, kid);
      VisitsLevels(fs, o, above + [kid.dir], Below(fs, o, above, kid.path, kid.dir));
    }
  }

  lemma {:induction false} VisitsLevels(fs: FileSys, o: Options, above: seq<Ino>, kids: seq<Kid>)
    requires AllEnterable(fs, above, kids)
    ensures forall i :: 0 <= i < |Visits(fs, o, above, kids)| ==> Visits(fs, o, above, kids)[i].level >= |above|
    decreases |Unused(fs, above)|, 2, |kids|
  {
    if kids != [] {
      VisitLevels(fs, o, above, kids[0]);
      VisitsLevels(fs, o, above, kids[1..]);
    }
  }

  /** The place of the first event behind another that is no deeper is known by the depths. */
  lemma SamePlace(s: seq<Event>, s': seq<Event>, n: nat, n': nat)
    requires PlainEvents(s) == PlainEvents(s') && 0 < n < |s| && 0 < n' < |s'| && s[n].level == s'[n'].level
    requires forall k :: 0 < k < n ==> s[k].level > s[n].level
    requires forall k :: 0 < k < n' ==> s'[k].level > s'[n'].level
    ensures n == n'
  {
    assert |s| == |PlainEvents(s)| == |s'|;
    assert s[n].level == PlainEvents(s)[n].level == s'[n].level;
    assert s'[n'].level == PlainEvents(s')[n'].level == s[n'].level;
  }

  /** What is reported between entering and leaving a directory, and what is behind. */
  lemma SplitAtLevel(x: Event, i: seq<Event>, y: Event, r: seq<Event>,
                     x': Event, i': seq<Event>, y': Event, r': seq<Event>)
    requires PlainEvents([x] + i + [y] + r) == PlainEvents([x'] + i' + [y'] + r') && y.level == y'.level
    requires forall k :: 0 <= k < |i| ==> i[k].level > y.level
    requires forall k :: 0 <= k < |i'| ==> i'[k].level > y.level
    ensures PlainEvents(i) == PlainEvents(i') && PlainEvents(r) == PlainEvents(r')
  {
    hide PlainEvents;
    SamePlace([x] + i + [y] + r, [x'] + i' + [y'] + r', 1 + |i|, 1 + |i'|);
    PlainParts(x, i, y, r);
    PlainParts(x', i', y', r');
    var p := PlainEvents([x] + i + [y] + r);
    assert p[1..1 + |i|] == PlainEvents(i) && p[2 + |i|..] == PlainEvents(r);
    assert p[1..1 + |i|] == PlainEvents(i') && p[2 + |i|..] == PlainEvents(r');
  }

  lemma PlainParts(x: Event, i: seq<Event>, y: Event, r: seq<Event>)
    ensures |PlainEvents(i)| == |i| && |PlainEvents([x])| == |PlainEvents([y])| == 1
    ensures PlainEvents([x] + i + [y] + r) == PlainEvents([x]) + PlainEvents(i) + PlainEvents([y]) + PlainEvents(r)
  {
    PlainAppend([x] + i + [y], r);
    PlainAppend([x] + i, [y]);
    PlainAppend([x], i);
  }

  /** Where both walks report the same, every directory read has had enough links. */
  lemma {:induction false} SameEventsCount(fs: FileSys, o: Options, above: seq<Ino>, a: seq<Kid>, b: seq<Kid>)
    requires !o.logical && AllTyped(fs) && AllEnterable(fs, above, a) && AllEnterable(fs, above, b)
    requires SameShape(a, b) && Fresh(a) && Fresh(b)
    requires PlainEvents(Visits(fs, o, above, a)) == PlainEvents(Visits(fs, Every(o), above, b))
    ensures PlainKids(a) == PlainKids(b) && CountsVisits(fs, o, above, b)
    decreases |Unused(fs, above)|, 2, |a|
  {
    if a != [] {
      var x, y := a[0], b[0];
      var v, w := Visit(fs, o, above, x), Visit(fs, Every(o), above, y);
      var r, t := Visits(fs, o, above, a[1..]), Visits(fs, Every(o), above, b[1..]);
      PlainAppend(v, r);
      PlainAppend(w, t);
      FirstReported(fs, o, above, x);
      FirstReported(fs, Every(o), above, y);
      assert PlainEvents(v + r)[0] == PlainEvents(v)[0] && PlainEvents(w + t)[0] == PlainEvents(w)[0];
      assert Plain(x.info) == Plain(y.info);
      if x.info == D && fs[x.dir].readable {
        SameInside(fs, o, above, x, y, r, t);
      } else {
        SameTails(v, r, w, t);
      }
      SameEventsCount(fs, o, above, a[1..], b[1..]);
      SameSize(a);
      SameSize(b);
      assert PlainKids(a) == [PlainKid(x)] + PlainKids(a[1..]) && PlainKids(b) == [PlainKid(y)] + PlainKids(b[1..]);
    }
  }

  lemma FirstReported(fs: FileSys, o: Options, above: seq<Ino>, kid: Kid)
    requires Enterable(fs, above, kid)
    ensures Visit(fs, o, above, kid) != [] && Visit(fs, o, above, kid)[0] == Event(kid.info, kid.path, |above|)
    ensures kid.info != D ==> |Visit(fs, o, above, kid)| == 1
    ensures kid.info == D && !fs[kid.dir].readable ==> |Visit(fs, o, above, kid)| == 2
  {
  }

  lemma SameTails(v: seq<Event>, r: seq<Event>, w: seq<Event>, t: seq<Event>)
    requires PlainEvents(v) + PlainEvents(r) == PlainEvents(w) + PlainEvents(t) && |v| == |w|
    ensures PlainEvents(r) == PlainEvents(t)
  {
    var a, b := PlainEvents(v) + PlainEvents(r), PlainEvents(w) + PlainEvents(t);
    assert a[|v|..] == PlainEvents(r) && b[|w|..] == PlainEvents(t);
  }

  lemma {:induction false} SameInside(fs: FileSys, o: Options, above: seq<Ino>, x: Kid, y: Kid, r: seq<Event>,
                                      t: seq<Event>)
    requires !o.logical && AllTyped(fs) && Enterable(fs, above, x) && Enterable(fs, above, y)
    requires x.info == y.info == D && x.dir == y.dir && x.path == y.path && fs[x.dir].readable
    requires PlainEvents(Visit(fs, o, above, x) + r) == PlainEvents(Visit(fs, Every(o), above, y) + t)
    ensures PlainEvents(r) == PlainEvents(t) && CountsVisit(fs, o, above, y)
    decreases |Unused(fs, above)|, 1, 0
  {
    var es, above' := fs[x.dir].entries, above + [x.dir];
    var ka, kb := Below(fs, o, above, x.path, x.dir), Below(fs, Every(o), above, y.path, y.dir);
    UnusedLess(fs, above, x.dir);
    BelowEnterable(fs, o, above, x);
    BelowEnterable(fs, Every(o), above, y);
    KidsShape(fs, o, above', x.path, es, Links(o, fs[x.dir].nlink));
    KidsFresh(fs, o, above', x.path, es, Links(o, fs[x.dir].nlink));
    KidsFresh(fs, Every(o), above', x.path, es, -1);
    var i, i' := Visits(fs, o, above', ka), Visits(fs, Every(o), above', kb);
    VisitsLevels(fs, o, above', ka);
    VisitsLevels(fs, Every(o), above', kb);
    var d, dp := Event(D, x.path, |above|), Event(DP, x.path, |above|);
    assert Visit(fs, o, above, x) + r == [d] + i + [dp] + r;
    assert Visit(fs, Every(o), above, y) + t == [d] + i' + [dp] + t;
    SplitAtLevel(d, i, dp, r, d, i', dp, t);
    SameEventsCount(fs, o, above', ka, kb);
    KidsPlainIff(fs, o, above', x.path, es, Links(o, fs[x.dir].nlink));
  }

  lemma RootsFresh(fs: FileSys, o: Options, roots: seq<(string, Ino)>)
    ensures Fresh(Roots(fs, o, roots))
  {
  }

  /** A walk that saves calls by counting links reports what a walk without it reports, up to
      the kinds of other files, exactly if every directory read has had enough links. */
  lemma LinkCountIff(fs: FileSys, o: Options, roots: seq<(string, Ino)>)
    requires !o.logical && AllTyped(fs)
    ensures AllEnterable(fs, [], Roots(fs, o, roots))
    ensures PlainEvents(Walk(fs, o, roots)) == PlainEvents(Walk(fs, Every(o), roots))
      <==> CountsVisits(fs, o, [], Roots(fs, o, roots))
  {
    hide CountsVisits, Visits, PlainEvents;
    RootsEnterable(fs, o, roots);
    var kids := Roots(fs, o, roots);
    assert kids == Roots(fs, Every(o), roots);
    RootsFresh(fs, o, roots);
    if CountsVisits(fs, o, [], kids) {
      VisitsPlain(fs, o, [], kids, kids);
    }
    if PlainEvents(Walk(fs, o, roots)) == PlainEvents(Walk(fs, Every(o), roots)) {
      SameEventsCount(fs, o, [], kids, kids);
    }
  }

  lemma {:induction false} RightCounts(fs: FileSys, o: Options, above: seq<Ino>, kids: seq<Kid>)
    requires !o.logical && CountsRight(fs, o) && AllEnterable(fs, above, kids)
    ensures CountsVisits(fs, o, above, kids)
    decreases |Unused(fs, above)|, |kids|
  {
    if kids != [] {
      var kid := kids[0];
      if kid.info == D && fs[kid.dir].readable {
        UnusedLess(fs, above, kid.dir);
        BelowEnterable(fs, Every(o), above, kid);
        RightCounts(fs, o, above + [kid.dir], Below(fs, Every(o), above, kid.path, kid.dir));
      }
      RightCounts(fs, o, above, kids[1..]);
    }
  }

  /** Where the counts of all directories are right, so is every walk. */
  lemma LinkCountIsSound(fs: FileSys, o: Options, roots: seq<(string, Ino)>)
    requires !o.logical && CountsRight(fs, o)
    ensures PlainEvents(Walk(fs, o, roots)) == PlainEvents(Walk(fs, Every(o), roots))
  {
    LinkCountIff(fs, o, roots);
    RightCounts(fs, o, [], Roots(fs, o, roots));
  }

  function Dots(es: seq<Entry>): nat {
    if es == [] then 0 else Dots(es[1..]) + if IsDot(es[0].name) then 1 else 0
  }

  lemma {:induction false} DirectoriesWithDots(fs: FileSys, o: Options, es: seq<Entry>)
    ensures Directories(fs, o.(seedot := true), es) <= Directories(fs, o.(seedot := false), es) + Dots(es)
  {
    if es != [] {
      DirectoriesWithDots(fs, o, es[1..]);
    }
  }

  /** Link counts of two more than the subdirectories are enough, whether or not the two
      entries that begin with dots are shown. */
  lemma UsualLinkCounts(fs: FileSys, o: Options)
    requires forall d :: d in fs && fs[d].Dir? ==> Typed(fs, fs[d].entries) && Dots(fs[d].entries) <= 2
    requires forall d :: d in fs && fs[d].Dir? ==>
      fs[d].nlink == 2 + Directories(fs, o.(seedot := false), fs[d].entries)
    ensures CountsRight(fs, o)
  {
    forall d | d in fs && fs[d].Dir?
      ensures Links(o, fs[d].nlink) < 0 || Links(o, fs[d].nlink) >= Directories(fs, o, fs[d].entries)
    {
      DirectoriesWithDots(fs, o, fs[d].entries);
      assert o.(seedot := o.seedot) == o;
    }
  }

  // ----- every path once -----------------------------------------------------------------

  /** The paths reported for the first time. */
  function Firsts(es: seq<Event>): seq<string> {
    if es == [] then [] else (if es[0].info == DP || es[0].info == DNR then [] else [es[0].path]) + Firsts(es[1..])
  }

  lemma {:induction false} FirstsAppend(a: seq<Event>, b: seq<Event>)
    ensures Firsts(a + b) == Firsts(a) + Firsts(b)
  {
    if a == [] {
      assert a + b == b;
    } else {
      assert (a + b)[1..] == a[1..] + b;
      FirstsAppend(a[1..], b);
    }
  }

  /** `p` is the path, or one below it. */
  predicate Within(p: string, path: string) {
    p == path || Slashed(path) <= p
  }

  ghost predicate AllWithin(ps: seq<string>, path: string) {
    forall i :: 0 <= i < |ps| ==> Within(ps[i], path)
  }

  /** The entries have names of their own. */
  ghost predicate Named(kids: seq<Kid>, path: string, names: seq<string>) {
    |names| == |kids| && Distinct(names) && forall i :: 0 <= i < |kids| ==>
      NameOk(names[i]) && kids[i].path == Join(path, names[i])
  }

  /** No directory has two entries of the same name, or one with an improper name. */
  ghost predicate ProperNames(fs: FileSys) {
    forall d :: d in fs && fs[d].Dir? ==>
      Distinct(EntryNames(fs[d].entries)) && forall i :: 0 <= i < |fs[d].entries| ==> NameOk(fs[d].entries[i].name)
  }

  function EntryNames(es: seq<Entry>): seq<string> {
    seq(|es|, i requires 0 <= i < |es| => es[i].name)
  }

  /** The names of the entries that are shown. */
  function ShownNames(o: Options, es: seq<Entry>): seq<string> {
    if es == [] then [] else (if !o.seedot && IsDot(es[0].name) then [] else [es[0].name]) + ShownNames(o, es[1..])
  }

  lemma DistinctCons<T>(x: T, rest: seq<T>)
    ensures Distinct([x] + rest) <==> Distinct(rest) && x !in rest
  {
    var s := [x] + rest;
    assert forall i :: 0 <= i < |rest| ==> rest[i] == s[i + 1];
    if Distinct(s) {
      forall i | 0 <= i < |rest|
        ensures rest[i] != x
      {
        assert s[0] != s[i + 1];
      }
    }
  }

  lemma {:induction false} ShownAreEntries(o: Options, es: seq<Entry>)
    ensures forall n :: n in ShownNames(o, es) ==> n in EntryNames(es)
    ensures Distinct(EntryNames(es)) ==> Distinct(ShownNames(o, es))
  {
    if es != [] {
      var rest := EntryNames(es[1..]);
      assert EntryNames(es) == [es[0].name] + rest;
      DistinctCons(es[0].name, rest);
      DistinctCons(es[0].name, ShownNames(o, es[1..]));
      ShownAreEntries(o, es[1..]);
    }
  }

  lemma {:induction false} KidsNamed(fs: FileSys, o: Options, above: seq<Ino>, path: string, es: seq<Entry>,
                                     nlinks: int)
    requires forall i :: 0 <= i < |es| ==> NameOk(es[i].name)
    ensures var ks, ns := Kids(fs, o, above, path, es, nlinks), ShownNames(o, es);
      |ks| == |ns| && forall i :: 0 <= i < |ks| ==> NameOk(ns[i]) && ks[i].path == Join(path, ns[i])
    decreases |es|
  {
    hide StatInfo, Look, LookIno, IsDirInfo, Join, Skipped, IsDot, NameOk;
    if es != [] {
      var info := StatInfo(Look(fs, o.logical, es[0].ino), es[0].name, above);
      KidsNamed(fs, o, above, path, es[1..], nlinks);
      KidsNamed(fs, o, above, path, es[1..], if nlinks > 0 && IsDirInfo(info) then nlinks - 1 else nlinks);
    }
  }

  /** What lies within one entry does not lie within another of the same directory. */
  lemma SiblingsApart(path: string, m: string, n: string, p: string)
    requires NameOk(m) && NameOk(n) && m != n && Within(p, Join(path, m))
    ensures !Within(p, Join(path, n))
  {
    NameIn(path, m, p);
    if Within(p, Join(path, n)) {
      NameIn(path, n, p);
    }
  }

  function UpToSlash(s: string): (r: string)
    ensures r <= s
  {
    if s == "" || s[0] == '/' then "" else [s[0]] + UpToSlash(s[1..])
  }

  lemma {:induction false} UpToSlashIs(m: string, r: string)
    requires '/' !in m && (r == "" || r[0] == '/')
    ensures UpToSlash(m + r) == m
  {
    if m == "" {
      assert m + r == r;
    } else {
      assert (m + r)[1..] == m[1..] + r;
      UpToSlashIs(m[1..], r);
    }
  }

  /** The name is what stands behind the path of the directory, up to a slash. */
  lemma NameIn(path: string, m: string, p: string)
    requires NameOk(m) && Within(p, Join(path, m))
    ensures Slashed(path) <= p && UpToSlash(p[|Slashed(path)|..]) == m
  {
    JoinSlashed(path, m);
    var j, s := Join(path, m), Slashed(path);
    assert j <= p && j == s + m;
    assert j[|j| - 1] == m[|m| - 1];
    assert Slashed(j) == j + "/";
    var r := p[|j|..];
    assert p == j + r && (r == "" || r[0] == '/');
    assert p[|s|..] == m + r;
    UpToSlashIs(m, r);
  }

  lemma WithinBelow(p: string, path: string, name: string)
    requires NameOk(name) && Within(p, Join(path, name))
    ensures Within(p, path) && p != path
  {
    NameIn(path, name, p);
    UpToSlashIs("", p[|Slashed(path)|..|Slashed(path)|]);
  }

  lemma {:induction false} VisitOnce(fs: FileSys, o: Options, above: seq<Ino>, kid: Kid)
    requires Enterable(fs, above, kid) && Fresh([kid]) && ProperNames(fs)
    ensures Distinct(Firsts(Visit(fs, o, above, kid))) && AllWithin(Firsts(Visit(fs, o, above, kid)), kid.path)
    decreases |Unused(fs, above)|, 1, 0
  {
    assert kid == [kid][0];
    var v := Visit(fs, o, above, kid);
    if kid.info == D && fs[kid.dir].readable {
      var es, above' := fs[kid.dir].entries, above + [kid.dir];
      UnusedLess(fs, above, kid.dir);
      KidsEnterable(fs, o, above', kid.path, es, Links(o, fs[kid.dir].nlink));
      KidsFresh(fs, o, above', kid.path, es, Links(o, fs[kid.dir].nlink));
      KidsNamed(fs, o, above', kid.path, es, Links(o, fs[kid.dir].nlink));
      ShownAreEntries(o, es);
      var kids := Below(fs, o, above, kid.path, kid.dir);
      VisitsOnce(fs, o, above', kids, kid.path, ShownNames(o, es));
      var vs := Visits(fs, o, above', kids);
      var d, dp := Event(D, kid.path, |above|), Event(DP, kid.path, |above|);
      FirstsAppend([d] + vs, [dp]);
      FirstsAppend([d], vs);
      assert Firsts([d]) == [kid.path] + Firsts([d][1..]) && Firsts([dp]) == [] + Firsts([dp][1..]);
      assert Firsts(v) == [kid.path] + Firsts(vs);
      BelowOnly(Firsts(vs), kid.path);
    } else {
      FirstsShort(v);
    }
  }

  lemma FirstsShort(v: seq<Event>)
    requires 1 <= |v| <= 2 && v[0].info != DP && v[0].info != DNR && (|v| == 2 ==> v[1].info == DNR)
    ensures Firsts(v) == [v[0].path]
  {
    if |v| == 2 {
      assert v[1..] == [v[1]] && v[1..][1..] == [];
      assert Firsts(v[1..]) == [] + Firsts(v[1..][1..]);
    } else {
      assert v[1..] == [];
    }
    assert Firsts(v[1..]) == [];
  }

  ghost predicate StrictlyBelow(ps: seq<string>, path: string) {
    forall i :: 0 <= i < |ps| ==> Within(ps[i], path) && ps[i] != path
  }

  lemma BelowOnly(ps: seq<string>, path: string)
    requires StrictlyBelow(ps, path) && Distinct(ps)
    ensures Distinct([path] + ps) && AllWithin([path] + ps, path)
  {
  }

  lemma {:induction false} VisitsOnce(fs: FileSys, o: Options, above: seq<Ino>, kids: seq<Kid>, path: string,
                                      names: seq<string>)
    requires AllEnterable(fs, above, kids) && Fresh(kids) && ProperNames(fs) && Named(kids, path, names)
    ensures Distinct(Firsts(Visits(fs, o, above, kids))) && StrictlyBelow(Firsts(Visits(fs, o, above, kids)), path)
    ensures forall i :: 0 <= i < |Firsts(Visits(fs, o, above, kids))| ==>
      OneOf(Firsts(Visits(fs, o, above, kids))[i], path, names)
    decreases |Unused(fs, above)|, 2, |kids|
  {
    if kids != [] {
      var a, b := Visit(fs, o, above, kids[0]), Visits(fs, o, above, kids[1..]);
      assert [kids[0]][0] == kids[0];
      VisitOnce(fs, o, above, kids[0]);
      NamedRest(kids, path, names);
      VisitsOnce(fs, o, above, kids[1..], path, names[1..]);
      FirstsAppend(a, b);
      Together(Firsts(a), Firsts(b), path, names);
    }
  }

  /** `p` lies within one of the named entries. */
  ghost predicate OneOf(p: string, path: string, names: seq<string>) {
    exists k :: 0 <= k < |names| && Within(p, Join(path, names[k]))
  }

  lemma NamedRest(kids: seq<Kid>, path: string, names: seq<string>)
    requires Named(kids, path, names) && kids != []
    ensures Named(kids[1..], path, names[1..])
  {
  }

  lemma Together(a: seq<string>, b: seq<string>, path: string, names: seq<string>)
    requires names != [] && Distinct(names) && forall i :: 0 <= i < |names| ==> NameOk(names[i])
    requires Distinct(a) && Distinct(b) && AllWithin(a, Join(path, names[0])) && StrictlyBelow(b, path)
    requires forall i :: 0 <= i < |b| ==> OneOf(b[i], path, names[1..])
    ensures Distinct(a + b) && StrictlyBelow(a + b, path)
    ensures forall i :: 0 <= i < |a + b| ==> OneOf((a + b)[i], path, names)
  {
    hide Within;
    forall i | 0 <= i < |a|
      ensures Within(a[i], path) && a[i] != path && OneOf(a[i], path, names)
    {
      WithinBelow(a[i], path, names[0]);
    }
    forall i | 0 <= i < |b|
      ensures OneOf(b[i], path, names) && forall j :: 0 <= j < |a| ==> a[j] != b[i]
    {
      var k :| 0 <= k < |names[1..]| && Within(b[i], Join(path, names[1..][k]));
      assert names[1..][k] == names[k + 1] != names[0];
      SiblingsApart(path, names[k + 1], names[0], b[i]);
    }
  }

  /** Neither of two roots lies within the other. */
  ghost predicate Apart(roots: seq<(string, Ino)>) {
    forall i, j :: 0 <= i < |roots| && 0 <= j < |roots| && i != j ==> !Within(roots[i].0, roots[j].0)
  }

  /** Then no path lies within both. */
  lemma ApartWithin(p: string, a: string, b: string)
    requires !Within(a, b) && !Within(b, a) && Within(p, a)
    ensures !Within(p, b)
  {
    if Slashed(a) <= p && Slashed(b) <= p {
      if |Slashed(a)| <= |Slashed(b)| {
        PrefixOfSlashed(a, b, p);
      } else {
        PrefixOfSlashed(b, a, p);
      }
    }
  }

  lemma PrefixOfSlashed(a: string, b: string, p: string)
    requires Slashed(a) <= p && Slashed(b) <= p && |Slashed(a)| <= |Slashed(b)|
    ensures Within(b, a) || Within(a, b)
  {
    assert Slashed(a) == p[..|Slashed(a)|] && Slashed(b) == p[..|Slashed(b)|];
    if |Slashed(a)| > |b| {
      assert Slashed(a) == Slashed(b) && a == p[..|a|] && b == p[..|b|];
    }
  }

  /** `p` lies within one of the entries. */
  ghost predicate WithinOne(p: string, kids: seq<Kid>) {
    exists k :: 0 <= k < |kids| && Within(p, kids[k].path)
  }

  lemma {:induction false} RootsOnce(fs: FileSys, o: Options, kids: seq<Kid>)
    requires AllEnterable(fs, [], kids) && Fresh(kids) && ProperNames(fs)
    requires forall i, j :: 0 <= i < |kids| && 0 <= j < |kids| && i != j ==> !Within(kids[i].path, kids[j].path)
    ensures var ps := Firsts(Visits(fs, o, [], kids)); Distinct(ps) && forall i :: 0 <= i < |ps| ==>
      WithinOne(ps[i], kids)
  {
    hide Within, Enterable;
    if kids != [] {
      var a, b := Visit(fs, o, [], kids[0]), Visits(fs, o, [], kids[1..]);
      assert [kids[0]][0] == kids[0];
      VisitOnce(fs, o, [], kids[0]);
      RootsOnce(fs, o, kids[1..]);
      FirstsAppend(a, b);
      assert forall i :: 0 <= i < |Firsts(a)| ==> Within(Firsts(a)[i], kids[0].path);
      forall i | 0 <= i < |Firsts(b)|
        ensures WithinOne(Firsts(b)[i], kids) && forall j :: 0 <= j < |Firsts(a)| ==> Firsts(a)[j] != Firsts(b)[i]
      {
        var k :| 0 <= k < |kids[1..]| && Within(Firsts(b)[i], kids[1..][k].path);
        assert kids[1..][k] == kids[k + 1];
        ApartWithin(Firsts(b)[i], kids[k + 1].path, kids[0].path);
      }
    }
  }

  /** If no root lies within another, every path is reported for the first time once. */
  lemma WalkOnce(fs: FileSys, o: Options, roots: seq<(string, Ino)>)
    requires ProperNames(fs) && Apart(roots)
    ensures Distinct(Firsts(Walk(fs, o, roots)))
  {
    RootsEnterable(fs, o, roots);
    RootsOnce(fs, o, Roots(fs, o, roots));
  }
}
