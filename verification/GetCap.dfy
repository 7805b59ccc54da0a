/** Looking a capability record up and expanding its `tc=` references in place. */
module GetCap {
  import opened CapText

  /** A record as the database reader leaves it: a name field and capability
      fields, each ended by a colon. */
  datatype Record = Record(name: string, fields: seq<string>)

  predicate WellFormed(r: Record) {
    ':' !in r.name && NoColons(r.fields)
  }

  function Text(r: Record): string {
    Body([r.name] + r.fields)
  }

  /** The records of each file of a database; a file that cannot be opened has none. */
  type Database = seq<seq<Record>>

  predicate WellFormedDb(db: Database) {
    forall recs, r :: recs in db && r in recs ==> WellFormed(r)
  }

  // ----- record names -------------------------------------------------------------

  /** The names of a record: the pieces of its name field between bars. */
  function Names(nf: string): (r: seq<string>)
    ensures |r| >= 1
    ensures forall n :: n in r ==> '|' !in n
  {
    if nf == "" then [""]
    else
      var r := Names(nf[1..]);
      if nf[0] == '|' then [""] + r else [[nf[0]] + r[0]] + r[1..]
  }

  /** The text behind the first bar of the name field in `t`, if there is one. */
  function NextName(t: string): (r: (bool, string))
    ensures r.0 ==> |r.1| < |t|
    ensures !r.0 ==> r.1 == ""
  {
    if t == "" || t[0] == ':' then (false, "")
    else if t[0] == '|' then (true, t[1..])
    else NextName(t[1..])
  }

  predicate EndsName(t: string) {
    t == "" || t[0] == '|' || t[0] == ':'
  }

  /** The comparison of `cgetmatch` on any text and name: after a failed attempt it
      resumes at the character that stopped it, or at the last one matched. */
  predicate Matches(t: string, name: string)
    decreases |t|
  {
    var m := Common(t, name);
    if m == |name| && EndsName(t[m..]) then true
    else if name == "" then false
    else
      var (more, next) := NextName(t[if m == |name| then m - 1 else m..]);
      more && Matches(next, name)
  }

  lemma {:induction false} NextNameSkip(t: string, k: nat)
    requires k <= |t| && '|' !in t[..k] && ':' !in t[..k]
    ensures NextName(t) == NextName(t[k..])
    decreases k
  {
    if k == 0 {
      assert t[0..] == t;
    } else {
      assert t[0] == t[..k][0] && t[1..][..k - 1] == t[..k][1..] && t[1..][k - 1..] == t[k..];
      NextNameSkip(t[1..], k - 1);
    }
  }

  /** Name field `nf`, seen from its first name on. */
  lemma {:induction false} NamesStep(nf: string, rest: string)
    requires ':' !in nf
    ensures var (more, next) := NextName(nf + ":" + rest);
      && (more <==> |Names(nf)| > 1)
      && (more ==>
        exists nf' :: |nf'| < |nf| && ':' !in nf' && next == nf' + ":" + rest && Names(nf)[1..] == Names(nf'))
    decreases |nf|
  {
    var t := nf + ":" + rest;
    if nf != "" {
      assert t[0] == nf[0] && nf[0] in nf && t[1..] == nf[1..] + ":" + rest;
      if nf[0] != '|' {
        NamesStep(nf[1..], rest);
      } else {
        assert Names(nf)[1..] == Names(nf[1..]);
      }
    }
  }

  /** The first name, as far as `name` agrees with it. */
  lemma {:induction false} FirstName(nf: string, rest: string, name: string)
    requires ':' !in nf && ':' !in name && '|' !in name
    ensures var t := nf + ":" + rest;
      var m := Common(t, name);
      && (name == Names(nf)[0] <==> m == |name| && EndsName(t[m..]))
    decreases |nf|
  {
    var t := nf + ":" + rest;
    if nf == "" {
      assert t[0] == ':';
      if name != "" {
        assert name[0] in name;
      }
    } else {
      assert t[0] == nf[0] && nf[0] in nf && t[1..] == nf[1..] + ":" + rest;
      if name != "" {
        assert name[0] in name;
        if name[0] == nf[0] {
          FirstName(nf[1..], rest, name[1..]);
          assert t[1 + Common(t[1..], name[1..])..] == t[1..][Common(t[1..], name[1..])..];
          assert name == [name[0]] + name[1..];
          assert Names(nf)[0] == [nf[0]] + Names(nf[1..])[0];
        }
      }
    }
  }

  /** For an ordinary name, `cgetmatch` succeeds exactly on the records that have
      the name. */
  lemma {:induction false} MatchesIsMembership(nf: string, rest: string, name: string)
    requires ':' !in nf && ':' !in name && '|' !in name && name != ""
    ensures Matches(nf + ":" + rest, name) <==> name in Names(nf)
    decreases |nf|
  {
    var t := nf + ":" + rest;
    var m := Common(t, name);
    FirstName(nf, rest, name);
    if !(m == |name| && EndsName(t[m..])) {
      var k := if m == |name| then m - 1 else m;
      forall i | 0 <= i < k
        ensures t[..k][i] != '|' && t[..k][i] != ':'
      {
        assert t[..m][i] == name[..m][i] == name[i];
        assert name[i] in name;
      }
      NextNameSkip(t, k);
      NamesStep(nf, rest);
      var (more, next) := NextName(t);
      if more {
        var nf' :| |nf'| < |nf| && ':' !in nf' && next == nf' + ":" + rest && Names(nf)[1..] == Names(nf');
        MatchesIsMembership(nf', rest, name);
        assert Names(nf) == [Names(nf)[0]] + Names(nf');
      }
    }
  }

  /** The first record of a file that has the name. */
  function FindFrom(recs: seq<Record>, name: string, from: nat): (i: int)
    requires from <= |recs|
    ensures i == -1 || from <= i < |recs|
    ensures i != -1 ==> Matches(Text(recs[i]), name) && forall j :: from <= j < i ==> !Matches(Text(recs[j]), name)
    ensures i == -1 ==> forall j :: from <= j < |recs| ==> !Matches(Text(recs[j]), name)
    decreases |recs| - from
  {
    if from == |recs| then -1
    else if Matches(Text(recs[from]), name) then from
    else FindFrom(recs, name, from + 1)
  }

  datatype Place = Missing | At(file: nat, rec: Record)

  /** The record that a name denotes: the first that has it in the given file or, if there is
      none, in the files behind. */
  function Find(db: Database, file: nat, name: string): (p: Place)
    ensures p.At? ==> file <= p.file < |db| && p.rec in db[p.file]
    decreases |db| - file
  {
    if file >= |db| then Missing
    else
      var i := FindFrom(db[file], name, 0);
      if i != -1 then At(file, db[file][i]) else Find(db, file + 1, name)
  }

  /** The place of the first record with the name: the files in order, and in each file the
      records in order. */
  ghost predicate FirstPlace(db: Database, file: nat, name: string, p: Place) {
    match p
    case Missing => forall f, j :: file <= f < |db| && 0 <= j < |db[f]| ==> !Matches(Text(db[f][j]), name)
    case At(at, r) =>
      && file <= at < |db| && Matches(Text(r), name)
      && (exists i :: 0 <= i < |db[at]| && db[at][i] == r && forall j :: 0 <= j < i ==>
        !Matches(Text(db[at][j]), name))
      && forall f, j :: file <= f < at && 0 <= j < |db[f]| ==> !Matches(Text(db[f][j]), name)
  }

  /** No file behind is forgotten, and none in front. */
  lemma {:induction false} FindIsFirst(db: Database, file: nat, name: string, p: Place)
    ensures FirstPlace(db, file, name, p) <==> p == Find(db, file, name)
    decreases |db| - file
  {
    hide Matches;
    if file < |db| {
      var i := FindFrom(db[file], name, 0);
      FindIsFirst(db, file + 1, name, p);
      if FirstPlace(db, file, name, p) && p.At? && i != -1 {
        assert Matches(Text(db[file][i]), name);
      }
    }
  }

  /** The names put together again. */
  function BarJoined(names: seq<string>): string
    requires |names| >= 1
  {
    if |names| == 1 then names[0] else names[0] + "|" + BarJoined(names[1..])
  }

  /** The names of a record are its name field cut at every bar. */
  lemma {:induction false} NamesJoined(nf: string)
    ensures BarJoined(Names(nf)) == nf
  {
    if nf != "" {
      NamesJoined(nf[1..]);
      var r := Names(nf[1..]);
      if nf[0] == '|' {
        assert ([""] + r)[1..] == r;
      } else {
        assert ([[nf[0]] + r[0]] + r[1..])[1..] == r[1..];
      }
      assert nf == [nf[0]] + nf[1..];
    }
  }

  /** For an ordinary name a record is found exactly if one of the given file or one behind has
      the name, and the one found has it. */
  lemma FoundByName(db: Database, file: nat, name: string)
    requires WellFormedDb(db) && ':' !in name && '|' !in name && name != ""
    ensures var p := Find(db, file, name);
      && (p.At? ==> name in Names(p.rec.name))
      && (p.At? <==> exists f, j :: file <= f < |db| && 0 <= j < |db[f]| && name in Names(db[f][j].name))
  {
    hide Matches, Names;
    FindIsFirst(db, file, name, Find(db, file, name));
    forall f: nat, j: nat | f < |db| && j < |db[f]|
      ensures Matches(Text(db[f][j]), name) <==> name in Names(db[f][j].name)
    {
      var r := db[f][j];
      RecordIn(db, f, j);
      assert ([r.name] + r.fields)[1..] == r.fields;
      MatchesIsMembership(r.name, Body(r.fields), name);
    }
  }

  // ----- what expansion means --------------------------------------------------------

  /** The name a `tc=` field refers to. */
  function TcName(f: string): Verdict {
    Judge(f, "tc", '=')
  }

  /** The outcome of expanding a record: its fields with every resolvable reference
      replaced, and whether some reference stayed unresolved. */
  datatype Expansion = NotFound | TooDeep | Expanded(fields: seq<string>, unresolved: bool)

  function ExpandRecord(db: Database, file: nat, name: string, depth: nat): Expansion
    decreases 33 - depth, 1, 0
  {
    if depth > 32 then TooDeep
    else match Find(db, file, name)
      case Missing => NotFound
      case At(at, r) => ExpandFields(db, at, r.fields, depth)
  }

  /** `tc@` stops the expansion; a reference to a missing record is kept. */
  function ExpandFields(db: Database, file: nat, fs: seq<string>, depth: nat): (r: Expansion)
    requires depth <= 32
    ensures !r.NotFound?
    decreases 33 - depth, 0, |fs|
  {
    if fs == [] then Expanded([], false)
    else match TcName(fs[0])
      case Cancelled => Expanded(fs, false)
      case Pass => Before([fs[0]], false, ExpandFields(db, file, fs[1..], depth))
      case Value(name) =>
        match ExpandRecord(db, file, name, depth + 1)
        case TooDeep => TooDeep
        case NotFound => Before([fs[0]], true, ExpandFields(db, file, fs[1..], depth))
        case Expanded(g, u) => Before(g, u, ExpandFields(db, file, fs[1..], depth))
  }

  function Before(g: seq<string>, u: bool, rest: Expansion): Expansion {
    if rest.Expanded? then Expanded(g + rest.fields, u || rest.unresolved) else rest
  }

  // ----- expansion preserves meaning ---------------------------------------------------

  /** Searching without expanding: own fields in order, descending into the record
      of a reference at the place where the reference stands. */
  function SearchInherited(db: Database, file: nat, fs: seq<string>, cap: string, typ: char, depth: nat): Verdict
    requires depth <= 32
    decreases 32 - depth, |fs|
  {
    if fs == [] then Pass
    else
      var ref := TcName(fs[0]);
      if ref.Cancelled? then Search(fs, cap, typ)
      else
        var v :=
          if ref.Value? && Find(db, file, ref.v).At? then
            (if depth == 32 then Pass else SearchInherited(db, Find(db, file, ref.v).file,
              Find(db, file, ref.v).rec.fields, cap, typ, depth + 1))
          else Judge(fs[0], cap, typ);
        if v == Pass then SearchInherited(db, file, fs[1..], cap, typ, depth) else v
  }

  /** Looking a capability up in the expanded record gives what searching own and
      inherited fields in order gives, cancellations included. */
  lemma {:induction false} ExpansionPreservesSearch(db: Database, file: nat, fs: seq<string>, cap: string, typ: char,
                                                    depth: nat)
    requires depth <= 32 && ExpandFields(db, file, fs, depth).Expanded?
    ensures Search(ExpandFields(db, file, fs, depth).fields, cap, typ) == SearchInherited(db, file, fs, cap, typ, depth)
    decreases 32 - depth, |fs|
  {
    if fs != [] && !TcName(fs[0]).Cancelled? {
      var rest := ExpandFields(db, file, fs[1..], depth);
      ExpansionPreservesSearch(db, file, fs[1..], cap, typ, depth);
      if TcName(fs[0]).Value? && Find(db, file, TcName(fs[0]).v).At? {
        var p := Find(db, file, TcName(fs[0]).v);
        ExpansionPreservesSearch(db, p.file, p.rec.fields, cap, typ, depth + 1);
        SearchConcat(ExpandFields(db, p.file, p.rec.fields, depth + 1).fields, rest.fields, cap, typ);
      } else {
        SearchConcat([fs[0]], rest.fields, cap, typ);
      }
    }
  }

  /** A reference among the fields, not behind a `tc@`, denotes no record, or denotes one from
      which such a reference is reached in less than `k` steps. */
  ghost predicate ReachesMissing(db: Database, file: nat, fs: seq<string>, k: nat)
    decreases k, |fs|
  {
    fs != [] && !TcName(fs[0]).Cancelled? &&
      ((TcName(fs[0]).Value? &&
        match Find(db, file, TcName(fs[0]).v)
        case Missing => true
        case At(at, r) => k > 0 && ReachesMissing(db, at, r.fields, k - 1))
       || ReachesMissing(db, file, fs[1..], k))
  }

  /** The unresolved flag is set exactly if a reference to a missing record is reached. */
  lemma {:induction false} UnresolvedIff(db: Database, file: nat, fs: seq<string>, depth: nat)
    requires depth <= 32 && ExpandFields(db, file, fs, depth).Expanded?
    ensures ExpandFields(db, file, fs, depth).unresolved <==> ReachesMissing(db, file, fs, 32 - depth)
    decreases 32 - depth, |fs|
  {
    hide TcName, Find;
    if fs != [] && !TcName(fs[0]).Cancelled? {
      UnresolvedIff(db, file, fs[1..], depth);
      if TcName(fs[0]).Value? {
        var p := Find(db, file, TcName(fs[0]).v);
        if p.At? {
          UnresolvedIff(db, p.file, p.rec.fields, depth + 1);
        }
      }
    }
  }

  /** A reference of the fields, or of a record in this file or one behind, that is to be found
      in neither from there on. */
  ghost predicate Unresolvable(db: Database, file: nat, fs: seq<string>, f: string) {
    && TcName(f).Value?
    && ((f in fs && Find(db, file, TcName(f).v).Missing?)
        || exists at, r :: file <= at < |db| && r in db[at] && f in r.fields && Find(db, at, TcName(f).v).Missing?)
  }

  /** With the unresolved flag, a reference to a missing record is left in the fields; without
      it, none that a search would find. */
  lemma {:induction false} UnresolvedMeansReferenceLeft(db: Database, file: nat, fs: seq<string>, depth: nat)
    requires depth <= 32 && ExpandFields(db, file, fs, depth).Expanded?
    ensures var e := ExpandFields(db, file, fs, depth);
      && (!e.unresolved ==> !Search(e.fields, "tc", '=').Value?)
      && (e.unresolved ==> exists f :: f in e.fields && Unresolvable(db, file, fs, f))
    decreases 32 - depth, |fs|
  {
    hide Find, Search, Unresolvable;
    if fs == [] || TcName(fs[0]).Cancelled? {
      SearchStops(fs);
    } else {
      var rest := ExpandFields(db, file, fs[1..], depth);
      UnresolvedMeansReferenceLeft(db, file, fs[1..], depth);
      if rest.unresolved {
        var f :| f in rest.fields && Unresolvable(db, file, fs[1..], f);
        UnresolvableLater(db, file, fs, f);
      }
      if TcName(fs[0]).Value? && Find(db, file, TcName(fs[0]).v).At? {
        var p := Find(db, file, TcName(fs[0]).v);
        UnresolvedMeansReferenceLeft(db, p.file, p.rec.fields, depth + 1);
        var g := ExpandFields(db, p.file, p.rec.fields, depth + 1);
        SearchConcat(g.fields, rest.fields, "tc", '=');
        if g.unresolved {
          var f :| f in g.fields && Unresolvable(db, p.file, p.rec.fields, f);
          UnresolvableBelow(db, file, fs, p, f);
          assert f in g.fields + rest.fields;
        }
      } else {
        SearchConcat([fs[0]], rest.fields, "tc", '=');
        SearchOne(fs[0]);
        if TcName(fs[0]).Value? {
          UnresolvableHere(db, file, fs);
          assert fs[0] in [fs[0]] + rest.fields;
        }
      }
    }
  }

  lemma SearchStops(fs: seq<string>)
    requires fs == [] || TcName(fs[0]).Cancelled?
    ensures !Search(fs, "tc", '=').Value?
  {
  }

  lemma SearchOne(f: string)
    ensures Search([f], "tc", '=') == TcName(f)
  {
    assert [f][1..] == [];
    assert Search([], "tc", '=') == Pass;
  }

  lemma UnresolvableHere(db: Database, file: nat, fs: seq<string>)
    requires fs != [] && TcName(fs[0]).Value? && Find(db, file, TcName(fs[0]).v).Missing?
    ensures Unresolvable(db, file, fs, fs[0])
  {
  }

  lemma UnresolvableLater(db: Database, file: nat, fs: seq<string>, f: string)
    requires fs != [] && Unresolvable(db, file, fs[1..], f)
    ensures Unresolvable(db, file, fs, f)
  {
  }

  lemma UnresolvableBelow(db: Database, file: nat, fs: seq<string>, p: Place, f: string)
    requires p.At? && file <= p.file < |db| && p.rec in db[p.file] && Unresolvable(db, p.file, p.rec.fields, f)
    ensures Unresolvable(db, file, fs, f)
  {
  }

  /** A missing reference behind a `tc@` stays, and is not reported. */
  lemma MissingBehindCancel()
    ensures ExpandFields([], 0, ["tc@", "tc=x"], 0) == Expanded(["tc@", "tc=x"], false)
    ensures TcName("tc=x") == Value("x") && Find([], 0, "x") == Missing
  {
    assert "tc@"[2..] == "@" && "tc=x"[2..] == "=x" && "=x"[1..] == "x";
  }

  // ----- reference loops -------------------------------------------------------------------

  /** A chain of `k` references leads on from the fields `fs`, each to a record in
      the database except possibly the last one's continuation. */
  ghost predicate ChainFrom(db: Database, file: nat, fs: seq<string>, k: nat)
    decreases k, |fs|
  {
    k == 0 ||
    (fs != [] && !TcName(fs[0]).Cancelled? &&
      ((TcName(fs[0]).Value? && (k == 1
        || (Find(db, file, TcName(fs[0]).v).At?
        && ChainFrom(db, Find(db, file, TcName(fs[0]).v).file, Find(db, file, TcName(fs[0]).v).rec.fields, k - 1))))
       || ChainFrom(db, file, fs[1..], k)))
  }

  /** Expansion is given up exactly when references nest deeper than 32. */
  lemma {:induction false} TooDeepIffChain(db: Database, file: nat, fs: seq<string>, depth: nat)
    requires depth <= 32
    ensures ExpandFields(db, file, fs, depth) == TooDeep <==> ChainFrom(db, file, fs, 33 - depth)
    decreases 32 - depth, |fs|
  {
    hide TcName, Find;
    if fs != [] && !TcName(fs[0]).Cancelled? {
      TooDeepIffChain(db, file, fs[1..], depth);
      if TcName(fs[0]).Value? && depth < 32 && Find(db, file, TcName(fs[0]).v).At? {
        var p := Find(db, file, TcName(fs[0]).v);
        TooDeepIffChain(db, p.file, p.rec.fields, depth + 1);
      }
    }
  }

  /** Some reference among `fs`, not behind a `tc@`, leads to a record in `loop`. */
  ghost predicate RefersInto(db: Database, file: nat, fs: seq<string>, loop: set<Place>) {
    fs != [] && !TcName(fs[0]).Cancelled? &&
      ((TcName(fs[0]).Value? && Find(db, file, TcName(fs[0]).v) in loop) || RefersInto(db, file, fs[1..], loop))
  }

  /** Records that refer to each other in a circle are never expanded. */
  lemma CirclesAreTooDeep(db: Database, loop: set<Place>, p: Place)
    requires p in loop && forall q :: q in loop ==> q.At? && RefersInto(db, q.file, q.rec.fields, loop)
    ensures ExpandFields(db, p.file, p.rec.fields, 0) == TooDeep
  {
    CircleHasChains(db, loop, p.file, p.rec.fields, 33);
    TooDeepIffChain(db, p.file, p.rec.fields, 0);
  }

  lemma {:induction false} CircleHasChains(db: Database, loop: set<Place>, file: nat, fs: seq<string>, k: nat)
    requires forall q :: q in loop ==> q.At? && RefersInto(db, q.file, q.rec.fields, loop)
    requires RefersInto(db, file, fs, loop)
    ensures ChainFrom(db, file, fs, k)
    decreases k, |fs|
  {
    hide TcName, Find;
    if TcName(fs[0]).Value? && Find(db, file, TcName(fs[0]).v) in loop {
      if k > 1 {
        var q := Find(db, file, TcName(fs[0]).v);
        CircleHasChains(db, loop, q.file, q.rec.fields, k - 1);
      }
    } else {
      CircleHasChains(db, loop, file, fs[1..], k);
    }
  }

  // ----- the record buffer -------------------------------------------------------------------

  /** A growing buffer; `len` characters are in use. */
  class RecordBuf {
    var a: array<char>
    var len: nat

    ghost predicate Valid()
      reads this
    {
      len < a.Length
    }

    ghost function Contents(): (s: string)
      requires Valid()
      reads this, a
      ensures |s| == len
    {
      a[..len]
    }

    constructor (text: string)
      ensures Valid() && Contents() == text && fresh(a)
    {
      len := |text|;
      a := new char[|text| + 1024](i => if 0 <= i < |text| then text[i] else '\0');
      new;
      assert a[..len] == text;
    }

    /** Makes room for `diff` more characters and a NUL. */
    method Reserve(diff: int)
      requires Valid()
      modifies this`a
      ensures Valid() && len + diff < a.Length && (a == old(a) || fresh(a))
      ensures Contents() == old(Contents())
    {
      if diff >= a.Length - len {
        ghost var before := a[..len];
        var bigger := new char[a.Length + diff + 1024];
        forall i | 0 <= i < a.Length {
          bigger[i] := a[i];
        }
        a := bigger;
        assert a[..len] == before;
      }
    }

    /** Moves the characters from `hi` on to `to`; the areas may overlap. */
    method MoveTail(hi: nat, to: nat, ghost lo: nat)
      requires Valid() && lo <= hi <= len && lo <= to && to + len - hi < a.Length
      modifies a
      ensures a[..lo] == old(a[..lo]) && a[to..to + len - hi] == old(a[hi..len])
    {
      forall i | to <= i < to + len - hi {
        a[i] := a[i - to + hi];
      }
    }

    method Write(lo: nat, ins: string, ghost end: nat)
      requires lo + |ins| <= end <= a.Length
      modifies a
      ensures a[..end] == old(a[..lo]) + ins + old(a[lo + |ins|..end])
    {
      forall i | lo <= i < lo + |ins| {
        a[i] := ins[i - lo];
      }
    }

    /** Replaces the characters from `lo` to `hi` by `ins`, enlarging the buffer
        when there is no room: first the tail moves, then the insertion. */
    method Splice(lo: nat, hi: nat, ins: string)
      requires Valid() && lo <= hi <= len
      modifies this, a
      ensures Valid() && (a == old(a) || fresh(a))
      ensures Contents() == old(Contents())[..lo] + ins + old(Contents())[hi..]
    {
      ghost var before := Contents();
      var diff := |ins| - (hi - lo);
      Reserve(diff);
      var s := lo + |ins|;
      assert a[hi..len] == before[hi..] && a[..lo] == before[..lo];
      MoveTail(hi, s, lo);
      Write(lo, ins, len + diff);
      len := len + diff;
    }
  }

  /** One attempt of `cgetmatch` at the name that starts at `start`; on failure
      `bp` is where the search resumes, or -1 at the very start of the record. */
  method TryName(buf: string, start: nat, name: string) returns (matched: bool, bp: int)
    requires start <= |buf| && (start > 0 ==> name != "")
    ensures var t := buf[start..]; var m := Common(t, name);
      && (matched <==> m == |name| && EndsName(t[m..]))
      && (!matched && name == "" ==> bp == -1)
      && (!matched && name != "" ==> start <= bp <= |buf| && buf[bp..] == t[if m == |name| then m - 1 else m..])
  {
    var np: nat := 0;
    var p: nat := start;
    while np < |name| && p < |buf| && buf[p] == name[np]
      invariant np <= |name| && p == start + np <= |buf| && buf[start..p] == name[..np]
    {
      assert buf[start..p + 1] == buf[start..p] + [buf[p]];
      np := np + 1;
      p := p + 1;
    }
    ghost var t := buf[start..];
    assert t[..np] == buf[start..p] && t[np..] == buf[p..];
    CommonIs(t, name, np);
    if np == |name| {
      if p == |buf| || buf[p] == '|' || buf[p] == ':' {
        return true, 0;
      }
    } else {
      p := p + 1;
    }
    if p > 0 {
      bp := p - 1;
    } else {
      bp := -1;
    }
    matched := false;
  }

  /** From `start` to behind the next bar, or -1 if the names end first. */
  method SkipName(buf: string, start: nat) returns (bp: int)
    requires start <= |buf|
    ensures var (more, next) := NextName(buf[start..]);
      if more then start < bp <= |buf| && buf[bp..] == next else bp == -1
  {
    bp := start;
    while true
      invariant start <= bp <= |buf| && NextName(buf[bp..]) == NextName(buf[start..])
      decreases |buf| - bp
    {
      if bp == |buf| || buf[bp] == ':' {
        return -1;
      }
      assert buf[bp..][1..] == buf[bp + 1..];
      bp := bp + 1;
      if buf[bp - 1] == '|' {
        return;
      }
    }
  }

  /** `cgetmatch`: 0 if `name` is one of the names of the record, -1 if not. */
  method CGetMatch(buf: string, name: string) returns (r: int)
    ensures r == if Matches(buf, name) then 0 else -1
  {
    var bp: int := 0;
    assert buf[0..] == buf;
    while true
      invariant 0 <= bp <= |buf| && (bp > 0 ==> name != "")
      invariant Matches(buf[bp..], name) == Matches(buf, name)
      decreases |buf| - bp
    {
      var matched: bool;
      matched, bp := TryName(buf, bp, name);
      if matched {
        return 0;
      }
      if bp == -1 {
        return -1;
      }
      bp := SkipName(buf, bp);
      if bp == -1 {
        return -1;
      }
    }
  }

  /** What `cgetcap` finds in the text of an expanded record is what searching own
      and inherited fields finds. */
  lemma CapabilityOfExpanded(db: Database, file: nat, r: Record, cap: string, typ: char)
    requires WellFormedDb(db) && WellFormed(r) && cap != "" && ExpandFields(db, file, r.fields, 0).Expanded?
    ensures var text := Text(Record(r.name, ExpandFields(db, file, r.fields, 0).fields));
      var found := Found(Split(text)[1..], cap, typ);
      var v := SearchInherited(db, file, r.fields, cap, typ, 0);
      if v.Value? then found != [] && found[0] == v.v else found == []
  {
    hide SearchInherited, ExpandFields;
    var fs := ExpandFields(db, file, r.fields, 0).fields;
    ExpansionPreservesSearch(db, file, r.fields, cap, typ, 0);
    ExpandKeepsNoColons(db, file, r.fields, 0);
    assert NoColons([r.name] + fs);
    SplitBody([r.name] + fs);
    assert ([r.name] + fs + [""])[1..] == fs + [""];
    FoundIsSearch(fs + [""], cap, typ);
    SearchConcat(fs, [""], cap, typ);
    assert Search([""], cap, typ) == Pass;
  }

  // ----- getent ---------------------------------------------------------------------------------

  lemma BeforeBefore(a: seq<string>, u: bool, b: seq<string>, w: bool, rest: Expansion)
    ensures Before(a, u, Before(b, w, rest)) == Before(a + b, u || w, rest)
  {
    if rest.Expanded? {
      assert a + (b + rest.fields) == a + b + rest.fields;
    }
  }

  /** Fields before the first reference are copied. */
  lemma {:induction false} ExpandSkips(db: Database, file: nat, fs: seq<string>, k: nat, depth: nat)
    requires depth <= 32 && k <= |fs| && forall i :: 0 <= i < k ==> TcName(fs[i]) == Pass
    ensures ExpandFields(db, file, fs, depth) == Before(fs[..k], false, ExpandFields(db, file, fs[k..], depth))
    decreases k
  {
    if k == 0 {
      assert fs[0..] == fs;
    } else {
      ExpandSkips(db, file, fs[1..], k - 1, depth);
      assert fs[1..][k - 1..] == fs[k..] && [fs[0]] + fs[1..][..k - 1] == fs[..k];
      BeforeBefore([fs[0]], false, fs[1..][..k - 1], false, ExpandFields(db, file, fs[k..], depth));
    }
  }

  lemma {:induction false} ExpandDone(db: Database, file: nat, fs: seq<string>, depth: nat)
    requires depth <= 32 && !Search(fs, "tc", '=').Value?
    ensures ExpandFields(db, file, fs, depth) == Expanded(fs, false)
    decreases |fs|
  {
    if fs != [] && TcName(fs[0]) == Pass {
      ExpandDone(db, file, fs[1..], depth);
      assert [fs[0]] + fs[1..] == fs;
    }
  }

  lemma {:induction false} ExpandKeepsNoColons(db: Database, file: nat, fs: seq<string>, depth: nat)
    requires depth <= 32 && WellFormedDb(db) && NoColons(fs) && ExpandFields(db, file, fs, depth).Expanded?
    ensures NoColons(ExpandFields(db, file, fs, depth).fields)
    decreases 32 - depth, |fs|
  {
    if fs != [] && !TcName(fs[0]).Cancelled? {
      ExpandKeepsNoColons(db, file, fs[1..], depth);
      if TcName(fs[0]).Value? && Find(db, file, TcName(fs[0]).v).At? {
        var p := Find(db, file, TcName(fs[0]).v);
        assert db[p.file] in db && WellFormed(p.rec);
        ExpandKeepsNoColons(db, p.file, p.rec.fields, depth + 1);
      }
    }
  }

  lemma FoundText(left: seq<string>, s: string)
    requires Search(left, "tc", '=').Value? && Split(s) == Found(left + [""], "tc", '=')
    ensures var k := Hit(left, "tc", '=');
      && k < |left| && TcName(left[k]) == Search(left, "tc", '=')
      && s == TcName(left[k]).v + ":" + Body(left[k + 1..])
  {
    hide Split, Judge, Body, Search, Found, Join;
    var k := Hit(left, "tc", '=');
    FoundIsSearch(left + [""], "tc", '=');
    SearchConcat(left, [""], "tc", '=');
    HitConcat(left, [""], "tc", '=');
    assert (left + [""])[k + 1..] == left[k + 1..] + [""];
    assert [TcName(left[k]).v] + (left[k + 1..] + [""]) == [TcName(left[k]).v] + left[k + 1..] + [""];
    JoinSplit(s);
    JoinBody(TcName(left[k]).v, left[k + 1..]);
  }

  lemma BodyAt(fs: seq<string>, k: nat)
    requires k < |fs|
    ensures Body(fs) == Body(fs[..k]) + fs[k] + ":" + Body(fs[k + 1..])
  {
    BodyStep(fs, k);
    hide Body;
    assert fs == fs[..k] + fs[k..];
    BodyConcat(fs[..k], fs[k..]);
    Regrouped(Body(fs[..k]), fs[k], ":", Body(fs[k + 1..]));
  }

  lemma BodyStep(fs: seq<string>, k: nat)
    requires k < |fs|
    ensures Body(fs[k..]) == fs[k] + ":" + Body(fs[k + 1..])
  {
    assert fs[k..][0] == fs[k] && fs[k..][1..] == fs[k + 1..];
  }

  lemma Regrouped(a: string, b: string, c: string, d: string)
    ensures a + (b + c + d) == a + b + c + d
  {
  }

  lemma SuffixAt(text: string, front: string, tail: string, r: nat)
    requires text == front + tail && r <= |text| && |text| - r == |tail|
    ensures r == |front| && text[..r] == front
  {
  }

  /** A search in the unscanned rest of the buffer, where it finds its value. */
  lemma LocateReference(text: string, pre: seq<string>, left: seq<string>, r: nat)
    requires text == Body(pre) + Body(left) && r <= |text| && Search(left, "tc", '=').Value?
    requires Split(text[r..]) == Found(left + [""], "tc", '=')
    ensures var k := Hit(left, "tc", '=');
      && k < |left| && TcName(left[k]) == Search(left, "tc", '=')
      && r >= 3 && text[..r - 3] == Body(pre) + Body(left[..k])
      && text[r..] == TcName(left[k]).v + ":" + Body(left[k + 1..])
  {
    hide Split, Body, Found;
    FoundText(left, text[r..]);
    var k := Hit(left, "tc", '=');
    var v := TcName(left[k]).v;
    assert left[k] == "tc=" + v;
    BodyAt(left, k);
    var tail := v + ":" + Body(left[k + 1..]);
    var front := Body(pre) + Body(left[..k]) + "tc=";
    assert text == front + tail;
    SuffixAt(text, front, tail, r);
    assert text[..r - 3] == text[..r][..r - 3];
  }

  lemma {:induction false} HitConcat(a: seq<string>, b: seq<string>, cap: string, typ: char)
    requires Search(a, cap, typ) != Pass
    ensures Hit(a + b, cap, typ) == Hit(a, cap, typ)
    decreases |a|
  {
    assert (a + b)[1..] == a[1..] + b;
    if Judge(a[0], cap, typ) == Pass {
      HitConcat(a[1..], b, cap, typ);
    }
  }

  lemma {:induction false} JoinBody(v: string, fs: seq<string>)
    ensures Join([v] + fs + [""]) == v + ":" + Body(fs)
    decreases |fs|
  {
    var r := [v] + fs + [""];
    assert r[1..] == fs + [""];
    if fs == [] {
      assert Join([""]) == "";
    } else {
      JoinBody(fs[0], fs[1..]);
      assert [fs[0]] + fs[1..] + [""] == fs + [""];
    }
  }

  /** The unscanned part of the buffer starts behind a field that is skipped. */
  ghost predicate ScanAt(text: string, scan: nat, pre: seq<string>, left: seq<string>) {
    && text == Body(pre) + Body(left) && scan <= |text|
    && Split(text[scan..])[1..] == left + [""]
  }

  lemma ScanFromStart(name: string, fs: seq<string>)
    requires ':' !in name && NoColons(fs)
    ensures ScanAt(Body([name] + fs), 0, [name], fs)
  {
    var text := Body([name] + fs);
    BodyConcat([name], fs);
    assert NoColons([name] + fs);
    SplitBody([name] + fs);
    assert text[0..] == text;
    assert ([name] + fs + [""])[1..] == fs + [""];
  }

  lemma ScanFromColon(pre: seq<string>, left: seq<string>)
    requires pre != [] && NoColons(left)
    ensures |Body(pre)| >= 1 && ScanAt(Body(pre) + Body(left), |Body(pre)| - 1, pre, left)
  {
    BodyEndsWithColon(pre);
    var text := Body(pre) + Body(left);
    var t := text[|Body(pre)| - 1..];
    assert t[0] == ':' && t[1..] == Body(left);
    SplitBody(left);
    FirstField(t);
  }

  lemma {:induction false} BodyEndsWithColon(fs: seq<string>)
    requires fs != []
    ensures |Body(fs)| >= 1 && Body(fs)[|Body(fs)| - 1] == ':'
    decreases |fs|
  {
    if |fs| > 1 {
      BodyEndsWithColon(fs[1..]);
    }
  }

  /** The characters from `from` up to the next colon. */
  method UpToColon(buf: string, from: nat) returns (e: nat)
    requires from <= |buf|
    ensures from <= e <= |buf| && ':' !in buf[from..e] && (e < |buf| ==> buf[e] == ':')
  {
    e := from;
    while e < |buf| && buf[e] != ':'
      invariant from <= e <= |buf| && ':' !in buf[from..e]
    {
      e := e + 1;
    }
  }

  lemma {:induction false} FirstColon(s: string, f: string, rest: string, e: nat)
    requires s == f + ":" + rest && ':' !in f && e <= |s|
    requires ':' !in s[..e] && (e < |s| ==> s[e] == ':')
    ensures e == |f|
  {
    assert s[|f|] == ':';
    assert forall j :: 0 <= j < e ==> s[..e][j] == s[j];
    assert forall j :: 0 <= j < |f| ==> s[j] == f[j] && f[j] in f;
  }

  /** The fields of an inherited record, without its name field. */
  method InheritedFields(icap: string, ghost name: string, ghost fs: seq<string>) returns (newicap: string)
    requires icap == Text(Record(name, fs)) && ':' !in name
    ensures newicap == Body(fs)
  {
    var s := UpToColon(icap, 0);
    assert icap == name + ":" + Body(fs) by {
      assert ([name] + fs)[1..] == fs;
    }
    assert icap[0..s] == icap[..s];
    FirstColon(icap, name, Body(fs), s);
    BodyEndsWithColon([name] + fs);
    newicap := icap[if s < |icap| then s + 1 else s..];
    if icap[|icap| - 1] != ':' {
      newicap := newicap + ":";
    }
  }

  /** Looks up the record named `name`, beginning with a file of the database, and expands its
      references. */
  method GetEnt(db: Database, file: nat, name: string, depth: nat) returns (code: int, cap: string)
    requires WellFormedDb(db)
    ensures match ExpandRecord(db, file, name, depth)
      case TooDeep => code == -3
      case NotFound => code == -1
      case Expanded(fs, unresolved) =>
        && code == (if unresolved then 1 else 0)
        && cap == Text(Record(Find(db, file, name).rec.name, fs))
    decreases 33 - depth, 1, 0
  {
    hide WellFormedDb, ExpandFields;
    cap := "";
    if depth > 32 {
      return -3, cap;
    }
    var f, i := file, -1;
    while f < |db|
      invariant file <= f && (f <= |db| || f == file) && Find(db, file, name) == Find(db, f, name)
      decreases |db| - f
    {
      i := SearchFile(db[f], name);
      if i != -1 {
        break;
      }
      f := f + 1;
    }
    if f >= |db| {
      return -1, cap;
    }
    RecordIn(db, f, i);
    code, cap := ExpandReferences(db, f, db[f][i], depth);
  }

  /** The records of one file in turn. */
  method SearchFile(recs: seq<Record>, name: string) returns (i: int)
    ensures i == FindFrom(recs, name, 0)
  {
    i := 0;
    while i < |recs|
      invariant 0 <= i <= |recs| && FindFrom(recs, name, 0) == FindFrom(recs, name, i)
    {
      var m := CGetMatch(Text(recs[i]), name);
      if m == 0 {
        return;
      }
      i := i + 1;
    }
    i := -1;
  }

  lemma RecordIn(db: Database, f: nat, i: int)
    requires WellFormedDb(db) && f < |db| && 0 <= i < |db[f]|
    ensures WellFormed(db[f][i])
  {
    assert db[f] in db && db[f][i] in db[f];
  }

  /** No reference left to expand from here on. */
  lemma NothingFound(db: Database, file: nat, left: seq<string>, depth: nat)
    requires depth <= 32 && Found(left + [""], "tc", '=') == []
    ensures ExpandFields(db, file, left, depth) == Expanded(left, false)
  {
    FoundIsSearch(left + [""], "tc", '=');
    SearchConcat(left, [""], "tc", '=');
    assert Search([""], "tc", '=') == Pass;
    ExpandDone(db, file, left, depth);
  }

  lemma SomethingFound(db: Database, file: nat, left: seq<string>, depth: nat)
    requires depth <= 32 && Found(left + [""], "tc", '=') != []
    ensures Search(left, "tc", '=').Value? && Hit(left, "tc", '=') < |left|
    ensures var k := Hit(left, "tc", '=');
      ExpandFields(db, file, left, depth) == Before(left[..k], false, ExpandFields(db, file, left[k..], depth))
  {
    FoundIsSearch(left + [""], "tc", '=');
    SearchConcat(left, [""], "tc", '=');
    assert Search([""], "tc", '=') == Pass;
    ExpandSkips(db, file, left, Hit(left, "tc", '='), depth);
  }

  /** What one reference contributes. */
  lemma ExpandOne(db: Database, file: nat, done: seq<string>, u: bool, left: seq<string>, k: nat, depth: nat)
    requires depth <= 32 && k < |left| && TcName(left[k]).Value?
    requires ExpandFields(db, file, left, depth) == Before(left[..k], false, ExpandFields(db, file, left[k..], depth))
    ensures Before(done, u, ExpandFields(db, file, left, depth)) ==
      match ExpandRecord(db, file, TcName(left[k]).v, depth + 1)
      case TooDeep => TooDeep
      case NotFound => Before(done + left[..k + 1], true, ExpandFields(db, file, left[k + 1..], depth))
      case Expanded(g, w) => Before(done + left[..k] + g, u || w, ExpandFields(db, file, left[k + 1..], depth))
  {
    var at := left[k..];
    assert at[0] == left[k] && at[1..] == left[k + 1..];
    var rest := ExpandFields(db, file, left[k + 1..], depth);
    BeforeBefore(done, u, left[..k], false, ExpandFields(db, file, at, depth));
    match ExpandRecord(db, file, TcName(left[k]).v, depth + 1)
    case TooDeep =>
    case NotFound =>
      BeforeBefore(done + left[..k], u, [left[k]], true, rest);
      assert done + left[..k] + [left[k]] == done + left[..k + 1];
    case Expanded(g, w) =>
      BeforeBefore(done + left[..k], u, g, w, rest);
  }

  /** Replacing the reference, its colon included, by the inherited fields. */
  lemma SplicedText(text: string, text': string, pre: seq<string>, left: seq<string>, k: nat, tc: nat, e: nat,
                    g: seq<string>)
    requires k < |left| && 3 <= tc <= e < |text|
    requires text[..tc - 3] == Body(pre) + Body(left[..k])
    requires text[e + 1..] == Body(left[k + 1..])
    requires text' == text[..tc - 3] + Body(g) + text[e + 1..]
    ensures text' == Body(pre + left[..k] + g) + Body(left[k + 1..])
    ensures |Body(pre + left[..k] + g)| == tc - 3 + |Body(g)|
  {
    BodyConcat(pre, left[..k]);
    BodyConcat(pre + left[..k], g);
  }

  /** Keeping the reference and scanning on from its colon. */
  lemma KeptText(text: string, pre: seq<string>, left: seq<string>, k: nat, tc: nat, e: nat)
    requires k < |left| && 3 <= tc <= e < |text| && text == Body(pre) + Body(left)
    requires text[e + 1..] == Body(left[k + 1..])
    ensures text == Body(pre + left[..k + 1]) + Body(left[k + 1..])
    ensures |Body(pre + left[..k + 1])| == e + 1
  {
    hide Body;
    var a, b := left[..k + 1], left[k + 1..];
    assert left == a + b;
    BodyConcat(pre, a);
    BodyConcat(a, b);
    assert Body(pre) + (Body(a) + Body(b)) == Body(pre) + Body(a) + Body(b);
    SuffixAt(text, Body(pre + a), Body(b), e + 1);
  }

  lemma TailNoColons(left: seq<string>, k: nat)
    requires NoColons(left) && k <= |left|
    ensures NoColons(left[k..])
  {
  }

  /** The name stands between the equals sign and the colon. */
  lemma ReferenceText(text: string, v: string, rest: string, tc: nat, e: nat, left: seq<string>, k: nat)
    requires tc <= e <= |text| && text[tc..] == v + ":" + rest
    requires ':' !in text[tc..e] && (e < |text| ==> text[e] == ':')
    requires NoColons(left) && k < |left| && TcName(left[k]) == Value(v)
    ensures e < |text| && text[tc..e] == v && text[e + 1..] == rest
  {
    assert left[k] in left;
    assert ':' !in v;
    var t := text[tc..];
    assert t[..e - tc] == text[tc..e];
    FirstColon(t, v, rest, e - tc);
    assert t[e - tc + 1..] == text[e + 1..];
  }

  lemma ExpandedIsFound(db: Database, file: nat, name: string, depth: nat)
    requires WellFormedDb(db) && ExpandRecord(db, file, name, depth).Expanded?
    ensures Find(db, file, name).At? && ':' !in Find(db, file, name).rec.name
  {
    var p := Find(db, file, name);
    assert db[p.file] in db && WellFormed(p.rec);
  }

  lemma BeforeNothing(e: Expansion)
    ensures Before([], false, e) == e
  {
    if e.Expanded? {
      assert [] + e.fields == e.fields;
    }
  }

  /** The state of the expansion of `r`: `done` is final, `left` is still to be
      scanned, starting from `scan`. */
  ghost predicate Progress(db: Database, file: nat, r: Record, depth: nat, text: string, scan: nat, done: seq<string>,
                           left: seq<string>, u: bool)
    requires depth <= 32
  {
    && ScanAt(text, scan, [r.name] + done, left) && NoColons(left)
    && ExpandFields(db, file, r.fields, depth) == Before(done, u, ExpandFields(db, file, left, depth))
  }

  lemma ProgressStart(db: Database, file: nat, r: Record, depth: nat)
    requires depth <= 32 && WellFormed(r)
    ensures Progress(db, file, r, depth, Text(r), 0, [], r.fields, false)
  {
    hide Split, Body, ExpandFields;
    ScanFromStart(r.name, r.fields);
    assert [r.name] + [] == [r.name];
    BeforeNothing(ExpandFields(db, file, r.fields, depth));
  }

  lemma ProgressScan(db: Database, file: nat, r: Record, depth: nat, text: string, scan: nat, done: seq<string>,
                     left: seq<string>, u: bool)
    requires depth <= 32 && Progress(db, file, r, depth, text, scan, done, left, u)
    ensures scan <= |text| && Split(text[scan..])[1..] == left + [""]
  {
  }

  lemma ProgressEnd(db: Database, file: nat, r: Record, depth: nat, text: string, scan: nat, done: seq<string>,
                    left: seq<string>, u: bool)
    requires depth <= 32 && Progress(db, file, r, depth, text, scan, done, left, u)
    requires Found(left + [""], "tc", '=') == []
    ensures ExpandFields(db, file, r.fields, depth) == Expanded(done + left, u)
    ensures text == Text(Record(r.name, done + left))
  {
    hide Split, Body, Found, ExpandFields;
    NothingFound(db, file, left, depth);
    BodyConcat([r.name] + done, left);
    assert [r.name] + done + left == [r.name] + (done + left);
  }

  /** `left[k]` is a reference whose name stands in `text` from `tc` to the colon
      at `e`. */
  ghost predicate ReferenceAt(text: string, name: string, done: seq<string>, left: seq<string>, k: nat, tc: nat,
                              e: nat) {
    && k < |left| && TcName(left[k]).Value? && 3 <= tc <= e < |text|
    && text[..tc - 3] == Body([name] + done) + Body(left[..k])
    && text[tc..e] == TcName(left[k]).v
    && text[e + 1..] == Body(left[k + 1..])
  }

  lemma ProgressReference(db: Database, file: nat, r: Record, depth: nat, text: string, scan: nat, done: seq<string>,
                          left: seq<string>, u: bool, tc: nat, e: nat)
    requires depth <= 32 && Progress(db, file, r, depth, text, scan, done, left, u)
    requires Found(left + [""], "tc", '=') != [] && tc <= |text| && Split(text[tc..]) == Found(left + [""], "tc", '=')
    requires tc <= e <= |text| && ':' !in text[tc..e] && (e < |text| ==> text[e] == ':')
    ensures ReferenceAt(text, r.name, done, left, Hit(left, "tc", '='), tc, e)
    ensures var k := Hit(left, "tc", '=');
      ExpandFields(db, file, left, depth) == Before(left[..k], false, ExpandFields(db, file, left[k..], depth))
  {
    hide Split, Body, Found, Search, ExpandFields, Before, TcName;
    SomethingFound(db, file, left, depth);
    var k := Hit(left, "tc", '=');
    LocateReference(text, [r.name] + done, left, tc);
    ReferenceText(text, TcName(left[k]).v, Body(left[k + 1..]), tc, e, left, k);
  }

  lemma ProgressTooDeep(db: Database, file: nat, r: Record, depth: nat, text: string, scan: nat, done: seq<string>,
                        left: seq<string>, u: bool, k: nat)
    requires depth <= 32 && Progress(db, file, r, depth, text, scan, done, left, u) && k < |left|
      && TcName(left[k]).Value?
    requires ExpandFields(db, file, left, depth) == Before(left[..k], false, ExpandFields(db, file, left[k..], depth))
    requires ExpandRecord(db, file, TcName(left[k]).v, depth + 1) == TooDeep
    ensures ExpandFields(db, file, r.fields, depth) == TooDeep
  {
    hide ExpandFields, Before, ExpandRecord, TcName, ScanAt;
    ExpandOne(db, file, done, u, left, k, depth);
  }

  lemma ProgressKept(db: Database, file: nat, r: Record, depth: nat, text: string, scan: nat, done: seq<string>,
                     left: seq<string>, u: bool, k: nat, tc: nat, e: nat)
    requires depth <= 32 && Progress(db, file, r, depth, text, scan, done, left, u)
      && ReferenceAt(text, r.name, done, left, k, tc, e)
    requires ExpandFields(db, file, left, depth) == Before(left[..k], false, ExpandFields(db, file, left[k..], depth))
    requires ExpandRecord(db, file, TcName(left[k]).v, depth + 1) == NotFound
    ensures Progress(db, file, r, depth, text, e, done + left[..k + 1], left[k + 1..], true)
  {
    hide Split, Body, ExpandFields, Before, ExpandRecord, TcName;
    ExpandOne(db, file, done, u, left, k, depth);
    KeptText(text, [r.name] + done, left, k, tc, e);
    assert [r.name] + done + left[..k + 1] == [r.name] + (done + left[..k + 1]);
    TailNoColons(left, k + 1);
    ScanFromColon([r.name] + (done + left[..k + 1]), left[k + 1..]);
  }

  lemma ProgressSpliced(db: Database, file: nat, r: Record, depth: nat, text: string, text': string, scan: nat,
                        done: seq<string>, left: seq<string>, u: bool,
                        k: nat, tc: nat, e: nat, g: seq<string>, w: bool)
    requires depth <= 32 && Progress(db, file, r, depth, text, scan, done, left, u)
      && ReferenceAt(text, r.name, done, left, k, tc, e)
    requires ExpandFields(db, file, left, depth) == Before(left[..k], false, ExpandFields(db, file, left[k..], depth))
    requires ExpandRecord(db, file, TcName(left[k]).v, depth + 1) == Expanded(g, w)
    requires text' == text[..tc - 3] + Body(g) + text[e + 1..]
    ensures tc - 4 + |Body(g)| >= 0
    ensures Progress(db, file, r, depth, text', tc - 4 + |Body(g)|, done + left[..k] + g, left[k + 1..], u || w)
  {
    hide Split, Body, ExpandFields, Before, ExpandRecord, TcName, ScanAt, NoColons;
    ExpandOne(db, file, done, u, left, k, depth);
    SplicedText(text, text', [r.name] + done, left, k, tc, e, g);
    assert [r.name] + done + left[..k] + g == [r.name] + (done + left[..k] + g);
    TailNoColons(left, k + 1);
    ScanFromColon([r.name] + (done + left[..k] + g), left[k + 1..]);
  }

  datatype Step = Finished | GivenUp | GoesOn

  /** One turn of the expansion: the next reference is looked for, looked up, and replaced or
      left. */
  method ExpandNext(db: Database, file: nat, r: Record, depth: nat, rec: RecordBuf, scan: nat, unresolved: bool,
                    ghost done: seq<string>, ghost left: seq<string>)
    returns (step: Step, scan': nat, unresolved': bool, ghost done': seq<string>, ghost left': seq<string>)
    requires WellFormedDb(db) && depth <= 32 && rec.Valid()
    requires Progress(db, file, r, depth, rec.Contents(), scan, done, left, unresolved)
    modifies rec, rec.a
    ensures rec.Valid() && (rec.a == old(rec.a) || fresh(rec.a))
    ensures step == Finished ==>
      unresolved' == unresolved && ExpandFields(db, file, r.fields, depth) == Expanded(done', unresolved)
    ensures step == Finished ==> rec.Contents() == Text(Record(r.name, done'))
    ensures step == GivenUp ==> ExpandFields(db, file, r.fields, depth) == TooDeep
    ensures step == GoesOn ==>
      |left'| < |left| && Progress(db, file, r, depth, rec.Contents(), scan', done', left', unresolved')
    decreases 33 - depth, 0, 0
  {
    hide Split, Body, Found, Search, ExpandFields, NoColons, Before, ExpandRecord, Find, TcName, Text, Progress, Hit,
      Scan;
    ghost var text := rec.Contents();
    scan', unresolved', done', left' := scan, unresolved, done, left;
    ProgressScan(db, file, r, depth, text, scan, done, left, unresolved);
    var tc := CGetCap(rec.a[..rec.len], scan, "tc", '=');
    if tc == -1 {
      ProgressEnd(db, file, r, depth, text, scan, done, left, unresolved);
      done' := done + left;
      return Finished, scan', unresolved', done', left';
    }
    var e := UpToColon(rec.a[..rec.len], tc);
    ProgressReference(db, file, r, depth, text, scan, done, left, unresolved, tc, e);
    ghost var k := Hit(left, "tc", '=');
    var name := rec.a[tc..e];
    assert name == text[tc..e];
    var iret, icap := GetEnt(db, file, name, depth + 1);
    if iret < -1 {
      ProgressTooDeep(db, file, r, depth, text, scan, done, left, unresolved, k);
      step := GivenUp;
    } else if iret == -1 {
      ProgressKept(db, file, r, depth, text, scan, done, left, unresolved, k, tc, e);
      step, scan', unresolved', done', left' := GoesOn, e, true, done + left[..k + 1], left[k + 1..];
    } else {
      ghost var inherited := ExpandRecord(db, file, name, depth + 1);
      ExpandedIsFound(db, file, name, depth + 1);
      var newicap := InheritedFields(icap, Find(db, file, name).rec.name, inherited.fields);
      rec.Splice(tc - 3, e + 1, newicap);
      ProgressSpliced(db, file, r, depth, text, rec.Contents(), scan, done, left, unresolved, k, tc, e,
        inherited.fields, inherited.unresolved);
      step, scan', unresolved' := GoesOn, tc - 3 + |newicap| - 1, unresolved || iret == 1;
      done', left' := done + left[..k] + inherited.fields, left[k + 1..];
    }
  }

  /** Expands the references of `r`, a record of that file, in place, in a buffer of its
      own. */
  method ExpandReferences(db: Database, file: nat, r: Record, depth: nat) returns (code: int, cap: string)
    requires WellFormedDb(db) && WellFormed(r) && depth <= 32
    ensures match ExpandFields(db, file, r.fields, depth)
      case TooDeep => code == -3
      case Expanded(fs, unresolved) => code == (if unresolved then 1 else 0) && cap == Text(Record(r.name, fs))
      case NotFound => true
    decreases 33 - depth, 0, 1
  {
    hide ExpandFields, Text, Progress, WellFormedDb, WellFormed;
    var rec := new RecordBuf(Text(r));
    var unresolved := false;
    var scan: nat := 0;
    ghost var done, left := [], r.fields;
    ProgressStart(db, file, r, depth);
    var step := GoesOn;
    while step == GoesOn
      invariant rec.Valid() && fresh(rec) && fresh(rec.a)
      invariant step == GoesOn ==> Progress(db, file, r, depth, rec.Contents(), scan, done, left, unresolved)
      invariant step == Finished ==>
        ExpandFields(db, file, r.fields, depth) == Expanded(done, unresolved)
          && rec.Contents() == Text(Record(r.name, done))
      invariant step == GivenUp ==> ExpandFields(db, file, r.fields, depth) == TooDeep
      decreases step == GoesOn, |left|
    {
      step, scan, unresolved, done, left := ExpandNext(db, file, r, depth, rec, scan, unresolved, done, left);
    }
    code := if step == GivenUp then -3 else if unresolved then 1 else 0;
    cap := rec.a[..rec.len];
  }
}
