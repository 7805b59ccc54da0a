/** Time arithmetic of the event library. */
module EvTime {
  const BILLION := 1_000_000_000

  datatype Timespec = Timespec(sec: int, nsec: int)

  predicate Normal(t: Timespec) {
    0 <= t.nsec < BILLION
  }

  /** A time as a number of nanoseconds. */
  function Ns(t: Timespec): int {
    t.sec * BILLION + t.nsec
  }

  function AddTime(a: Timespec, b: Timespec): (x: Timespec)
    ensures Normal(a) && Normal(b) ==> Normal(x) && Ns(x) == Ns(a) + Ns(b)
  {
    var sec, nsec := a.sec + b.sec, a.nsec + b.nsec;
    if nsec >= BILLION then Timespec(sec + 1, nsec - BILLION) else Timespec(sec, nsec)
  }

  function SubTime(m: Timespec, s: Timespec): (x: Timespec)
    ensures Normal(m) && Normal(s) ==> Normal(x) && Ns(x) == Ns(m) - Ns(s)
  {
    if m.nsec >= s.nsec then Timespec(m.sec - s.sec, m.nsec - s.nsec)
    else Timespec(m.sec - s.sec - 1, BILLION - s.nsec + m.nsec)
  }

  function CmpTime(a: Timespec, b: Timespec): (c: int)
    ensures Normal(a) && Normal(b) ==> (c < 0 <==> Ns(a) < Ns(b)) && (c == 0 <==> Ns(a) == Ns(b))
    ensures -1 <= c <= 1
  {
    var d := a.sec - b.sec;
    var x := if d == 0 then a.nsec - b.nsec else d;
    if x < 0 then -1 else if x > 0 then 1 else 0
  }

  /** Nanosecond counts determine normalized times. */
  lemma NsInjective(a: Timespec, b: Timespec)
    requires Normal(a) && Normal(b) && Ns(a) == Ns(b)
    ensures a == b
  {
  }

  /** A second has a thousand million nanoseconds. */
  lemma Carried()
    ensures Ns(Timespec(2, 5)) == 2000000005
    ensures AddTime(Timespec(1, 999999999), Timespec(2, 2)) == Timespec(4, 1)
    ensures SubTime(Timespec(3, 1), Timespec(1, 2)) == Timespec(1, 999999999)
    ensures Normal(Timespec(0, 999999999)) && !Normal(Timespec(0, 1000000000)) && !Normal(Timespec(0, -1))
  {
  }

  predicate DueSooner(a: Timespec, b: Timespec) {
    CmpTime(a, b) < 0
  }
}
