/** The cache of shared converters: a hash table of all of them, and a queue of those not
    in use, of which only so many are kept. */
module IconvCache {
  import opened Basics

  class Shared {
    const name: string
    var count: int

    constructor (name: string)
      ensures this.name == name && count == 1
    {
      this.name, count := name, 1;
    }
  }

  function Index(s: seq<Shared>, x: Shared): (k: nat)
    requires x in s
    ensures k < |s| && s[k] == x
  {
    if s[0] == x then 0 else 1 + Index(s[1..], x)
  }

  function Without(s: seq<Shared>, x: Shared): seq<Shared>
    requires x in s
  {
    s[..Index(s, x)] + s[Index(s, x) + 1..]
  }

  lemma WithoutHas(s: seq<Shared>, x: Shared)
    requires x in s && Distinct(s)
    ensures Distinct(Without(s, x)) && |Without(s, x)| == |s| - 1
    ensures forall y :: y in Without(s, x) <==> y in s && y != x
  {
    var k, w := Index(s, x), Without(s, x);
    forall i | 0 <= i < |w|
      ensures w[i] == s[if i < k then i else i + 1]
    {
    }
    forall y | y in s && y != x
      ensures y in w
    {
      var i :| 0 <= i < |s| && s[i] == y;
      assert w[if i < k then i else i - 1] == y;
    }
  }

  /** The others keep their order. */
  lemma WithoutKeepsOrder(a: seq<Shared>, x: Shared, b: seq<Shared>)
    requires x !in a
    ensures Without(a + [x] + b, x) == a + b
  {
    IndexIs(a, x, b);
    var s := a + [x] + b;
    assert s[..|a|] == a && s[|a| + 1..] == b;
  }

  lemma {:induction false} IndexIs(a: seq<Shared>, x: Shared, b: seq<Shared>)
    requires x !in a
    ensures Index(a + [x] + b, x) == |a|
  {
    if a != [] {
      assert (a + [x] + b)[1..] == a[1..] + [x] + b;
      IndexIs(a[1..], x, b);
    }
  }

  lemma Requeue(closed: seq<Shared>, first: Shared, rest: seq<Shared>)
    ensures closed + ([first] + rest) == closed + [first] + rest
  {
  }

  lemma QueueRest(s: seq<Shared>)
    requires s != [] && Distinct(s)
    ensures Distinct(s[1..]) && s[0] in s && s == [s[0]] + s[1..]
    ensures forall y :: y in s[1..] <==> y in s && y != s[0]
  {
    var x, r := s[0], s[1..];
    assert forall i :: 0 <= i < |r| ==> r[i] == s[i + 1] && s[i + 1] != s[0];
    assert s == [x] + r;
  }

  class Cache {
    const hash: string -> nat
    const shared: array<seq<Shared>>
    var unused: seq<Shared>
    var numUnused: int
    var maxReuse: int

    /** All converters that there are, and the handles that callers hold. */
    ghost var pool: set<Shared>
    ghost var held: multiset<Shared>

    constructor (hash: string -> nat, configured: int)
      requires forall name :: hash(name) < 101
      ensures Valid() && pool == {} && held == multiset{} && fresh(shared) && this.hash == hash
      ensures maxReuse == if configured < 0 then 5 else configured
    {
      this.hash := hash;
      shared := new seq<Shared>[101](_ => []);
      unused, numUnused := [], 0;
      maxReuse := if configured < 0 then 5 else configured;
      pool, held := {}, multiset{};
    }

    /** Each converter is in the bucket of its hash, once, and no two have the same name. */
    ghost predicate Hashed()
      reads this`pool, shared
    {
      && shared.Length == 101 && (forall name :: hash(name) < 101)
      && (forall h, i :: 0 <= h < 101 && 0 <= i < |shared[h]| ==> shared[h][i] in pool && hash(shared[h][i].name) == h)
      && (forall h :: 0 <= h < 101 ==> Distinct(shared[h]))
      && (forall c :: c in pool ==> c in shared[hash(c.name)])
      && (forall c, d :: c in pool && d in pool && c.name == d.name ==> c == d)
    }

    /** The queue holds those that no one uses, and the counts are those of the handles. */
    ghost predicate Counted()
      reads this`pool, this`unused, this`numUnused, this`held, this`pool, pool
    {
      && Distinct(unused) && numUnused == |unused|
      && (forall c :: c in pool ==> c.count == held[c] && (c in unused <==> c.count == 0))
      && (forall c :: c in unused ==> c in pool)
      && (forall c :: c in held ==> c in pool)
    }

    ghost predicate Valid()
      reads this, shared, pool
    {
      Hashed() && Counted() && 0 <= maxReuse && numUnused <= maxReuse
    }

    /** Looks for a name in its bucket. */
    method Search(name: string) returns (ci: Shared?)
      requires Hashed()
      ensures ci != null ==> ci in pool && ci.name == name
      ensures ci == null ==> forall c :: c in pool ==> c.name != name
    {
      var bucket := shared[hash(name)];
      var i := 0;
      while i < |bucket|
        invariant 0 <= i <= |bucket| && forall j :: 0 <= j < i ==> bucket[j].name != name
      {
        if bucket[i].name == name {
          return bucket[i];
        }
        i := i + 1;
      }
      ci := null;
    }

    /** `get_shared`: the converter of that name, which is opened if there is none; opening
        may fail with an error number. */
    method Get(src: string, dst: string, openError: int) returns (ret: int, ci: Shared?)
      requires Valid()
      modifies this`pool, this`unused, this`numUnused, this`held, pool`count, shared
      ensures Valid()
      ensures var name := src + "/" + dst;
        && (ret == if openError != 0 && forall c :: c in old(pool) ==> c.name != name then openError else 0)
        && (ret == 0 ==> ci != null && ci.name == name && held == old(held) + multiset{ci} && pool == old(pool) + {ci})
        && (ret == 0 ==> (fresh(ci) <==> forall c :: c in old(pool) ==> c.name != name))
      ensures ret == 0 ==> unused == if ci in old(unused) then Without(old(unused), ci) else old(unused)
      ensures ret != 0 ==> ci == null && pool == old(pool) && held == old(held) && unused == old(unused)
    {
      hide Hashed, Without, Distinct;
      var convname := src + "/" + dst;
      ret := 0;
      ci := Search(convname);
      if ci != null {
        Take(ci);
        return;
      }
      ret := openError;
      if ret != 0 {
        return;
      }
      ci := new Shared(convname);
      Insert(ci);
      held := held + multiset{ci};
      FirstUse(ci);
    }

    /** One more user of a converter. */
    method Take(ci: Shared)
      requires Counted() && ci in pool
      modifies this`unused, this`numUnused, this`held, ci`count
      ensures Counted() && held == old(held) + multiset{ci} && numUnused <= old(numUnused)
      ensures unused == if ci in old(unused) then Without(old(unused), ci) else old(unused)
    {
      hide Without;
      if ci.count == 0 {
        WithoutHas(unused, ci);
        unused := Without(unused, ci);
        numUnused := numUnused - 1;
      }
      ci.count := ci.count + 1;
      held := held + multiset{ci};
    }

    /** A converter that has just been made has one user. */
    lemma FirstUse(ci: Shared)
      requires ci in pool && ci.count == 1 == held[ci] && ci !in unused
      requires Distinct(unused) && numUnused == |unused| && (forall c :: c in unused ==>
        c in pool) && (forall c :: c in held ==> c in pool)
      requires forall c :: c in pool && c != ci ==> c.count == held[c] && (c in unused <==> c.count == 0)
      ensures Counted()
    {
    }

    /** Into its bucket. */
    method Insert(ci: Shared)
      requires Hashed() && ci !in pool && forall c :: c in pool ==> c.name != ci.name
      modifies this`pool, shared
      ensures Hashed() && pool == old(pool) + {ci}
    {
      var h := hash(ci.name);
      shared[h] := [ci] + shared[h];
      pool := pool + {ci};
    }

    /** Out of its bucket. */
    method Remove(ci: Shared)
      requires Hashed() && ci in pool
      modifies this`pool, shared
      ensures Hashed() && pool == old(pool) - {ci}
    {
      var h := hash(ci.name);
      WithoutHas(shared[h], ci);
      shared[h] := Without(shared[h], ci);
      pool := pool - {ci};
    }

    /** One user less; without users the converter is queued. */
    method Leave(ci: Shared)
      requires Counted() && ci in held
      modifies this`unused, this`numUnused, this`held, ci`count
      ensures Counted() && held == old(held) - multiset{ci}
      ensures unused == (if held[ci] == 0 then old(unused) + [ci] else old(unused))
        && (held[ci] == 0 <==> ci.count == 0)
    {
      ci.count := ci.count - 1;
      held := held - multiset{ci};
      if ci.count == 0 {
        numUnused := numUnused + 1;
        unused := unused + [ci];
      }
    }

    /** The longest unused converter is closed. */
    method Evict() returns (first: Shared)
      requires Hashed() && Counted() && unused != []
      modifies this`pool, this`unused, this`numUnused, shared
      ensures Hashed() && Counted() && old(unused) == [first] + unused && pool == old(pool) - {first} && first !in held
    {
      hide Without, Distinct, Hashed;
      first := unused[0];
      QueueRest(unused);
      unused := unused[1..];
      Remove(first);
      numUnused := numUnused - 1;
    }

    /** `release_shared`: a converter that no one uses any more goes to the end of the queue,
        and what the queue cannot keep is closed, the longest unused first. */
    method Release(ci: Shared) returns (ghost closed: seq<Shared>)
      requires Valid() && ci in held
      modifies this`pool, this`unused, this`numUnused, this`held, ci`count, shared
      ensures Valid() && held == old(held) - multiset{ci} && (forall c :: c in pool <==> c in old(pool) && c !in closed)
      ensures closed + unused == if held[ci] == 0 then old(unused) + [ci] else old(unused)
      ensures closed != [] ==> |unused| == maxReuse
      ensures forall c :: c in closed ==> c !in held
    {
      hide Hashed, Without, Distinct;
      closed := [];
      Leave(ci);
      if ci.count == 0 {
        ghost var queue, all := unused, pool;
        while numUnused > maxReuse
          invariant Hashed() && Counted() && closed + unused == queue
          invariant forall c :: c in pool <==> c in all && c !in closed
          invariant closed != [] ==> |unused| >= maxReuse
          invariant forall c :: c in closed ==> c !in held
          decreases |unused|
        {
          var first := Evict();
          Requeue(closed, first, unused);
          closed := closed + [first];
        }
      }
    }
  }
}
