/** Capability records as text: a name field and capability fields, each ended by
    a colon. Strings stand for C strings without their NUL. */
module CapText {
  import opened Basics

  /** The pieces of `s` between colons; there is always at least one. */
  function Split(s: string): (r: seq<string>)
    ensures |r| >= 1
    ensures forall f :: f in r ==> ':' !in f
  {
    if s == "" then [""]
    else
      var r := Split(s[1..]);
      if s[0] == ':' then [""] + r else [[s[0]] + r[0]] + r[1..]
  }

  /** Fields written out, each with its colon. */
  function Body(fs: seq<string>): string {
    if fs == [] then "" else fs[0] + ":" + Body(fs[1..])
  }

  predicate NoColons(fs: seq<string>) {
    forall f :: f in fs ==> ':' !in f
  }

  lemma {:induction false} SplitField(f: string, rest: string)
    requires ':' !in f
    ensures Split(f + ":" + rest) == [f] + Split(rest)
    decreases |f|
  {
    var s := f + ":" + rest;
    if f == "" {
      assert s[1..] == rest;
    } else {
      assert s[1..] == f[1..] + ":" + rest;
      assert s[0] == f[0] && f[0] in f;
      SplitField(f[1..], rest);
      assert [f[0]] + f[1..] == f;
    }
  }

  lemma {:induction false} SplitNoColon(f: string)
    requires ':' !in f
    ensures Split(f) == [f]
    decreases |f|
  {
    if f != "" {
      assert f[0] in f;
      SplitNoColon(f[1..]);
      assert [f[0]] + f[1..] == f;
    }
  }

  lemma {:induction false} SplitBody(fs: seq<string>)
    requires NoColons(fs)
    ensures Split(Body(fs)) == fs + [""]
    decreases |fs|
  {
    if fs != [] {
      SplitField(fs[0], Body(fs[1..]));
      SplitBody(fs[1..]);
    }
  }

  lemma {:induction false} BodyConcat(a: seq<string>, b: seq<string>)
    ensures Body(a + b) == Body(a) + Body(b)
    decreases |a|
  {
    if a == [] {
      assert a + b == b;
    } else {
      assert (a + b)[1..] == a[1..] + b;
      BodyConcat(a[1..], b);
    }
  }

  // ----- searching ------------------------------------------------------------

  /** What one field says about a capability of a given type. */
  datatype Verdict = Pass | Cancelled | Value(v: string)

  /** Type ':' asks for a bare capability; any other type is the character that
      must follow the name. */
  function Judge(f: string, cap: string, typ: char): Verdict {
    if !(cap <= f) then Pass
    else
      var rest := f[|cap|..];
      if rest != "" && rest[0] == '@' then Cancelled
      else if typ == ':' then (if rest == "" then Value("") else Pass)
      else if rest == "" || rest[0] != typ then Pass
      else if |rest| > 1 && rest[1] == '@' then Cancelled
      else Value(rest[1..])
  }

  /** A field cancels if an at sign follows the name or the type, and gives a value if it
      consists of the name, the type and the value. */
  lemma JudgeIff(f: string, cap: string, typ: char, v: string)
    ensures Judge(f, cap, typ) == Cancelled
      <==> cap + ['@'] <= f || (typ != ':' && cap + [typ] + ['@'] <= f)
    ensures Judge(f, cap, typ) == Value(v)
      <==> if typ == ':' then f == cap && v == "" else typ != '@' && f == cap + [typ] + v && !(['@'] <= v)
  {
    if cap <= f {
      var rest := f[|cap|..];
      assert f == cap + rest;
      assert rest != "" ==> f[|cap|] == rest[0] && rest == [rest[0]] + rest[1..];
      assert |rest| > 1 ==> f[|cap| + 1] == rest[1];
    }
  }

  /** The first field with something to say decides. */
  function Search(fs: seq<string>, cap: string, typ: char): Verdict {
    if fs == [] then Pass
    else
      var v := Judge(fs[0], cap, typ);
      if v == Pass then Search(fs[1..], cap, typ) else v
  }

  lemma {:induction false} SearchConcat(a: seq<string>, b: seq<string>, cap: string, typ: char)
    ensures Search(a + b, cap, typ)
      == if Search(a, cap, typ) == Pass then Search(b, cap, typ) else Search(a, cap, typ)
    decreases |a|
  {
    if a == [] {
      assert a + b == b;
    } else {
      assert (a + b)[1..] == a[1..] + b;
      SearchConcat(a[1..], b, cap, typ);
    }
  }

  /** The position of the deciding field, or the number of fields. */
  function Hit(fs: seq<string>, cap: string, typ: char): (k: nat)
    ensures k <= |fs|
    ensures forall i :: 0 <= i < k ==> Judge(fs[i], cap, typ) == Pass
    ensures k < |fs| ==> Judge(fs[k], cap, typ) == Search(fs, cap, typ) != Pass
    ensures k == |fs| ==> Search(fs, cap, typ) == Pass
  {
    if fs == [] then 0
    else if Judge(fs[0], cap, typ) != Pass then 0
    else 1 + Hit(fs[1..], cap, typ)
  }

  /** The value found and the fields behind it; empty if nothing is found. */
  function Found(fs: seq<string>, cap: string, typ: char): seq<string> {
    if fs == [] then []
    else match Judge(fs[0], cap, typ)
      case Pass => Found(fs[1..], cap, typ)
      case Cancelled => []
      case Value(v) => [v] + fs[1..]
  }

  lemma {:induction false} FoundIsSearch(fs: seq<string>, cap: string, typ: char)
    ensures var v := Search(fs, cap, typ);
      if v.Value? then Hit(fs, cap, typ) < |fs| && Found(fs, cap, typ) == [v.v] + fs[Hit(fs, cap, typ) + 1..]
      else Found(fs, cap, typ) == []
    decreases |fs|
  {
    hide Judge;
    if fs != [] {
      FoundIsSearch(fs[1..], cap, typ);
    }
  }

  /** The inverse of Split. */
  function Join(r: seq<string>): string
    requires |r| >= 1
  {
    if |r| == 1 then r[0] else r[0] + ":" + Join(r[1..])
  }

  lemma {:induction false} JoinSplit(s: string)
    ensures Join(Split(s)) == s
    decreases |s|
  {
    if s != "" {
      JoinSplit(s[1..]);
      var r := Split(s[1..]);
      if s[0] == ':' {
        assert ([""] + r)[1..] == r;
      } else {
        assert ([[s[0]] + r[0]] + r[1..])[1..] == r[1..];
      }
      assert s == [s[0]] + s[1..];
    }
  }

  // ----- cgetcap -----------------------------------------------------------------

  /** Moving inside the first field changes only that field. */
  lemma {:induction false} SplitInside(s: string, k: nat)
    requires k <= |s| && ':' !in s[..k]
    ensures Split(s)[1..] == Split(s[k..])[1..]
    ensures Split(s)[0] == s[..k] + Split(s[k..])[0]
    decreases k
  {
    if k == 0 {
      assert s[0..] == s;
    } else {
      assert s[..k][0] == s[0];
      assert s[1..][..k - 1] == s[..k][1..];
      SplitInside(s[1..], k - 1);
      assert s[1..][k - 1..] == s[k..];
    }
  }

  lemma FirstField(s: string)
    ensures Split(s)[0] == "" <==> s == "" || s[0] == ':'
    ensures Split(s)[0] != "" ==> Split(s)[0][0] == s[0] && Split(s[1..])[0] == Split(s)[0][1..]
    ensures s != "" && s[0] == ':' ==> Split(s)[1..] == Split(s[1..])
    ensures s != "" && s[0] != ':' ==> Split(s)[1..] == Split(s[1..])[1..]
    ensures Split(s) == [Split(s)[0]] + Split(s)[1..]
  {
  }

  /** The number of characters `s` and `t` have in common at the front. */
  function Common(s: string, t: string): (m: nat)
    ensures m <= |s| && m <= |t| && s[..m] == t[..m]
    ensures m < |s| && m < |t| ==> s[m] != t[m]
  {
    if s == "" || t == "" || s[0] != t[0] then 0 else 1 + Common(s[1..], t[1..])
  }

  lemma NotPrefix(a: string, b: string, k: nat)
    requires k < |a| && k <= |b| && (k == |b| || a[k] != b[k])
    ensures !(a <= b)
  {
  }

  /** What is behind the next colon, if there is one. */
  function BehindColon(t: string): (r: (bool, string))
    ensures r.0 ==> |r.1| < |t|
  {
    if t == "" then (false, "") else if t[0] == ':' then (true, t[1..]) else BehindColon(t[1..])
  }

  lemma {:induction false} BehindColonSplit(t: string)
    ensures var (more, u) := BehindColon(t); if more then Split(t)[1..] == Split(u) else |Split(t)| == 1
  {
    if t != "" && t[0] != ':' {
      BehindColonSplit(t[1..]);
    }
  }

  /** What the text behind a name says: as for a field, but with all that follows. */
  function Decide(rest: string, typ: char): Verdict {
    if rest != "" && rest[0] == '@' then Cancelled
    else if typ == ':' then (if rest == "" || rest[0] == ':' then Value(rest) else Pass)
    else if rest == "" || rest[0] != typ then Pass
    else if |rest| > 1 && rest[1] == '@' then Cancelled
    else Value(rest[1..])
  }

  /** The comparison of `cgetcap` on any text and name: after a failed attempt it resumes at
      the character that stopped it. */
  function Scan(t: string, cap: string, typ: char): (r: Option<string>)
    ensures r.Some? ==> |r.value| < |t|
    decreases |t|
  {
    var (more, u) := BehindColon(t);
    if !more then None
    else
      var rest := u[Common(u, cap)..];
      match if Common(u, cap) < |cap| then Pass else Decide(rest, typ)
      case Pass => Scan(rest, cap, typ)
      case Cancelled => None
      case Value(v) => Some(v)
  }

  /** Only what belongs to the field counts. */
  lemma DecideField(rest: string, typ: char)
    ensures var g, v := Split(rest)[0], Decide(rest, typ);
      match Judge(g, "", typ)
      case Pass => v == Pass
      case Cancelled => v == Cancelled
      case Value(w) => v.Value? && Split(v.v) == [w] + Split(rest)[1..]
  {
    hide Split;
    var g := Split(rest)[0];
    assert g[0..] == g;
    FirstField(rest);
    if rest != "" && rest[0] != ':' {
      assert g[1..] == Split(rest[1..])[0];
      FirstField(rest[1..]);
    }
  }

  lemma JudgeRest(f: string, cap: string, typ: char)
    requires cap <= f
    ensures Judge(f, cap, typ) == Judge(f[|cap|..], "", typ)
  {
    assert f[|cap|..][0..] == f[|cap|..];
  }

  /** For a name without colons the text is searched field by field. */
  lemma {:induction false} ScanIsFound(t: string, cap: string, typ: char)
    requires ':' !in cap
    ensures var found := Found(Split(t)[1..], cap, typ);
      match Scan(t, cap, typ)
      case None => found == []
      case Some(v) => found != [] && Split(v) == found
    decreases |t|
  {
    hide Split, Found, Judge, Decide, BehindColon;
    BehindColonSplit(t);
    var (more, u) := BehindColon(t);
    if more {
      var m := Common(u, cap);
      var rest, f, others := u[m..], Split(u)[0], Split(u)[1..];
      InField(u, cap);
      FirstField(u);
      FoundFirst(f, others, cap, typ);
      assert Split(u) == [f] + others;
      if m == |cap| {
        assert f[m..] == Split(rest)[0];
        JudgeRest(f, cap, typ);
        DecideField(rest, typ);
      } else {
        JudgeOther(f, cap, typ);
      }
      if Judge(f, cap, typ) == Pass {
        ScanIsFound(rest, cap, typ);
      }
    } else {
      assert Split(t)[1..] == [];
      FoundNone(cap, typ);
    }
  }

  lemma JudgeOther(f: string, cap: string, typ: char)
    requires !(cap <= f)
    ensures Judge(f, cap, typ) == Pass
  {
  }

  /** The common part of a name and a text lies inside the first field. */
  lemma InField(u: string, cap: string)
    requires ':' !in cap
    ensures var m := Common(u, cap);
      var f, g := Split(u)[0], Split(u[m..])[0];
      f == cap[..m] + g && (m == |cap| <==> cap <= f) && Split(u[m..])[1..] == Split(u)[1..]
  {
    hide Split;
    var m := Common(u, cap);
    assert ':' !in u[..m] by {
      assert u[..m] == cap[..m] && forall c :: c in cap[..m] ==> c in cap;
    }
    SplitInside(u, m);
    FirstField(u[m..]);
    if m < |cap| {
      NotPrefix(cap, Split(u)[0], m);
    }
  }

  lemma FoundFirst(f: string, others: seq<string>, cap: string, typ: char)
    ensures Found([f] + others, cap, typ) == match Judge(f, cap, typ)
      case Pass => Found(others, cap, typ)
      case Cancelled => []
      case Value(v) => [v] + others
  {
  }

  lemma FoundNone(cap: string, typ: char)
    ensures Found([], cap, typ) == []
  {
  }

  /** Searches `buf[from..]`, past its first field, and returns where the value
      starts; -1 stands for NULL. */
  method CGetCap(buf: string, from: nat, cap: string, typ: char) returns (r: int)
    requires from <= |buf|
    ensures match Scan(buf[from..], cap, typ)
      case None => r == -1
      case Some(v) => from < r <= |buf| && buf[r..] == v
    ensures ':' !in cap ==>
      var found := Found(Split(buf[from..])[1..], cap, typ);
      if found == [] then r == -1 else from < r <= |buf| && Split(buf[r..]) == found
  {
    hide Split, Found, BehindColon, Common;
    if ':' !in cap {
      ScanIsFound(buf[from..], cap, typ);
    }
    var bp := from;
    while true
      invariant from <= bp <= |buf|
      invariant Scan(buf[bp..], cap, typ) == Scan(buf[from..], cap, typ)
      decreases |buf| - bp
    {
      bp := SkipField(buf, bp);
      if bp == -1 {
        return -1;
      }
      var cp: nat;
      cp, bp := MatchName(buf, bp, cap);
      if cp < |cap| {
        continue;
      }
      if bp < |buf| && buf[bp] == '@' {
        return -1;
      }
      if typ == ':' {
        if bp < |buf| && buf[bp] != ':' {
          continue;
        }
        return bp;
      }
      if !(bp < |buf| && buf[bp] == typ) {
        continue;
      }
      assert buf[bp..][1..] == buf[bp + 1..];
      bp := bp + 1;
      return if bp < |buf| && buf[bp] == '@' then -1 else bp;
    }
  }

  /** Advances past the next colon, or returns -1 at the end of the text. */
  method SkipField(buf: string, from: nat) returns (bp: int)
    requires from <= |buf|
    ensures var (more, u) := BehindColon(buf[from..]);
      if more then from < bp <= |buf| && buf[bp..] == u else bp == -1
  {
    bp := from;
    while bp < |buf| && buf[bp] != ':'
      invariant from <= bp <= |buf| && BehindColon(buf[bp..]) == BehindColon(buf[from..])
    {
      assert buf[bp..][1..] == buf[bp + 1..];
      bp := bp + 1;
    }
    if bp == |buf| {
      return -1;
    }
    assert buf[bp..][1..] == buf[bp + 1..];
    bp := bp + 1;
  }

  /** Matches `cap` against the text that starts at `from`, as far as it goes. */
  method MatchName(buf: string, from: nat, cap: string) returns (cp: nat, bp: nat)
    requires from <= |buf|
    ensures cp == Common(buf[from..], cap) && bp == from + cp <= |buf|
    ensures buf[bp..] == buf[from..][cp..]
  {
    cp, bp := 0, from;
    while cp < |cap| && bp < |buf| && cap[cp] == buf[bp]
      invariant cp <= |cap| && bp == from + cp <= |buf| && cap[..cp] == buf[from..bp]
    {
      assert buf[from..bp + 1] == buf[from..bp] + [buf[bp]];
      assert cap[..cp + 1] == cap[..cp] + [cap[cp]];
      cp := cp + 1;
      bp := bp + 1;
    }
    assert buf[from..][..cp] == buf[from..bp];
    assert buf[from..][cp..] == buf[bp..];
    CommonIs(buf[from..], cap, cp);
  }

  lemma {:induction false} CommonIs(s: string, t: string, m: nat)
    requires m <= |s| && m <= |t| && s[..m] == t[..m]
    requires m == |s| || m == |t| || s[m] != t[m]
    ensures Common(s, t) == m
    decreases m
  {
    if m > 0 {
      assert s[..m][0] == t[..m][0];
      assert s[1..][..m - 1] == s[..m][1..] && t[1..][..m - 1] == t[..m][1..];
      CommonIs(s[1..], t[1..], m - 1);
    }
  }
}
