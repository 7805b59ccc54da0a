/** The on-disk layout of a Citrus database: a header, a directory of fixed-size
    records, a key table and a data table, each area padded to 16 bytes. */
module CitrusBytes {
  import opened Basics

  type u32 = x: int | 0 <= x < 0x1_0000_0000

  function Zeros(n: nat): (z: seq<byte>)
    ensures |z| == n
  {
    seq(n, _ => 0)
  }

  /** Big-endian bytes of the low 32 bits of `x`: what a `uint32_t` parameter and
      `htonl` leave of a `size_t`. */
  function Be32(x: nat): (s: seq<byte>)
    ensures |s| == 4
  {
    [x / 0x100_0000 % 0x100, x / 0x1_0000 % 0x100, x / 0x100 % 0x100, x % 0x100]
  }

  function FromBe32(s: seq<byte>): (x: u32)
    requires |s| == 4
  {
    var a: int, b: int, c: int, d: int := s[0], s[1], s[2], s[3];
    a * 0x100_0000 + b * 0x1_0000 + c * 0x100 + d
  }

  /** The most significant byte comes first. */
  lemma BigEndian(a: byte, b: byte, c: byte, d: byte)
    ensures FromBe32([a, b, c, d]) == ((a as int * 256 + b as int) * 256 + c as int) * 256 + d as int
    ensures Be32(0x0102_0304) == [1, 2, 3, 4] && Be32(0x5_0607_0809) == [6, 7, 8, 9]
  {
  }

  lemma Shifted(x: nat)
    ensures x / 0x1_0000 == x / 0x100 / 0x100
    ensures x / 0x100_0000 == x / 0x1_0000 / 0x100
  {
  }

  lemma FromBe32OfBe32(x: nat)
    ensures FromBe32(Be32(x)) == x % 0x1_0000_0000
  {
    var a, b, c := x / 0x100, x / 0x1_0000, x / 0x100_0000;
    Shifted(x);
    assert x == a * 0x100 + x % 0x100 && a == b * 0x100 + a % 0x100 && b == c * 0x100 + b % 0x100;
    assert c == c / 0x100 * 0x100 + c % 0x100;
    Remainder(x, c / 0x100, FromBe32(Be32(x)));
  }

  lemma Remainder(x: nat, q: nat, low: nat)
    requires x == q * 0x1_0000_0000 + low && low < 0x1_0000_0000
    ensures x % 0x1_0000_0000 == low
  {
  }
}

module CitrusDbFormat {
  import opened Basics
  import opened CitrusBytes

  /** The least multiple of 16 that is not below `sz`. */
  function CeilTo(sz: nat): (r: nat)
    ensures r % 16 == 0 && sz <= r < sz + 16
  {
    (sz + 16 - 1) / 16 * 16
  }

  function PadOf(sz: nat): nat {
    CeilTo(sz) - sz
  }

  lemma CeilToShift(m: nat, sz: nat)
    requires m % 16 == 0
    ensures CeilTo(m + sz) == m + CeilTo(sz)
  {
    assert m == m / 16 * 16;
    assert (m + sz + 15) / 16 == m / 16 + (sz + 15) / 16;
  }

  /** One directory record before it is given offsets; `next` is the slot of the
      next record of the same chain, or -1. */
  datatype Rec = Rec(hash: nat, next: int, key: seq<byte>, data: seq<byte>)

  function KeyBytes(recs: seq<Rec>, k: nat): seq<byte>
    requires k <= |recs|
  {
    if k == 0 then [] else KeyBytes(recs, k - 1) + recs[k - 1].key
  }

  function DataBytes(recs: seq<Rec>, k: nat): seq<byte>
    requires k <= |recs|
  {
    if k == 0 then []
    else DataBytes(recs, k - 1) + recs[k - 1].data + Zeros(PadOf(|recs[k - 1].data|))
  }

  function KeyStart(n: nat): nat {
    16 + CeilTo(24 * n)
  }

  function DataStart(recs: seq<Rec>): nat {
    KeyStart(|recs|) + CeilTo(|KeyBytes(recs, |recs|)|)
  }

  function KeyOff(recs: seq<Rec>, i: nat): nat
    requires i <= |recs|
  {
    KeyStart(|recs|) + |KeyBytes(recs, i)|
  }

  function DataOff(recs: seq<Rec>, i: nat): nat
    requires i <= |recs|
  {
    DataStart(recs) + |DataBytes(recs, i)|
  }

  /** Byte offset of slot `s`; a `next` of -1 is written as 0. */
  function SlotOff(s: int): nat
    requires s >= -1
  {
    if s == -1 then 0 else 16 + 24 * s
  }

  predicate WellFormed(recs: seq<Rec>) {
    forall i :: 0 <= i < |recs| ==> -1 <= recs[i].next < |recs|
  }

  function Record(recs: seq<Rec>, i: nat): (s: seq<byte>)
    requires WellFormed(recs) && i < |recs|
    ensures |s| == 24
  {
    Be32(recs[i].hash) + Be32(SlotOff(recs[i].next))
    + Be32(KeyOff(recs, i)) + Be32(|recs[i].key|)
    + Be32(DataOff(recs, i)) + Be32(|recs[i].data|)
  }

  function DirBytes(recs: seq<Rec>, k: nat): (s: seq<byte>)
    requires WellFormed(recs) && k <= |recs|
    ensures |s| == 24 * k
  {
    if k == 0 then [] else DirBytes(recs, k - 1) + Record(recs, k - 1)
  }

  function Header(magic: seq<byte>, n: nat): (s: seq<byte>)
    requires |magic| == 8
    ensures |s| == 16
  {
    magic + Be32(n) + Be32(16)
  }

  function ImageSize(recs: seq<Rec>): nat {
    DataOff(recs, |recs|)
  }

  /** The whole file. */
  function Image(magic: seq<byte>, recs: seq<Rec>): (s: seq<byte>)
    requires |magic| == 8 && WellFormed(recs)
    ensures |s| == ImageSize(recs)
  {
    var n := |recs|;
    Header(magic, n)
    + DirBytes(recs, n) + Zeros(PadOf(24 * n))
    + KeyBytes(recs, n) + Zeros(PadOf(|KeyBytes(recs, n)|))
    + DataBytes(recs, n)
  }

  // ----- what sits where ---------------------------------------------------

  lemma {:induction false} KeyBytesPrefix(recs: seq<Rec>, i: nat, k: nat)
    requires i <= k <= |recs|
    ensures |KeyBytes(recs, i)| <= |KeyBytes(recs, k)|
    ensures KeyBytes(recs, k)[..|KeyBytes(recs, i)|] == KeyBytes(recs, i)
    decreases k - i
  {
    if i < k {
      KeyBytesPrefix(recs, i, k - 1);
    }
  }

  lemma {:induction false} DataBytesPrefix(recs: seq<Rec>, i: nat, k: nat)
    requires i <= k <= |recs|
    ensures |DataBytes(recs, i)| <= |DataBytes(recs, k)|
    ensures DataBytes(recs, k)[..|DataBytes(recs, i)|] == DataBytes(recs, i)
    decreases k - i
  {
    if i < k {
      DataBytesPrefix(recs, i, k - 1);
    }
  }

  lemma {:induction false} DirBytesAt(recs: seq<Rec>, i: nat, k: nat)
    requires WellFormed(recs) && i < k <= |recs|
    ensures 24 * i + 24 <= 24 * k
    ensures DirBytes(recs, k)[24 * i..24 * i + 24] == Record(recs, i)
    decreases k
  {
    hide Record;
    AppendKeeps(DirBytes(recs, k - 1), Record(recs, k - 1), 24 * i);
    if i < k - 1 {
      DirBytesAt(recs, i, k - 1);
    }
  }

  /** Appending a 24-byte record to a directory moves none of the earlier ones. */
  lemma AppendKeeps<T>(d: seq<T>, r: seq<T>, lo: nat)
    requires lo <= |d| && |r| == 24
    ensures lo + 24 <= |d| ==> (d + r)[lo..lo + 24] == d[lo..lo + 24]
    ensures lo == |d| ==> (d + r)[lo..lo + 24] == r
  {
  }

  /** DataBytes is a whole number of alignment units, so padding an absolute
      offset and padding the length of one datum are the same thing. */
  lemma {:induction false} DataBytesAligned(recs: seq<Rec>, k: nat)
    requires k <= |recs|
    ensures |DataBytes(recs, k)| % 16 == 0
    decreases k
  {
    if k > 0 {
      DataBytesAligned(recs, k - 1);
      Aligned16(|DataBytes(recs, k - 1)|, CeilTo(|recs[k - 1].data|));
      assert |DataBytes(recs, k)| == |DataBytes(recs, k - 1)| + CeilTo(|recs[k - 1].data|);
    }
  }

  lemma Aligned16(a: nat, b: nat)
    requires a % 16 == 0 && b % 16 == 0
    ensures (a + b) % 16 == 0
  {
    assert a + b == (a / 16 + b / 16) * 16;
  }

  lemma AreasAligned(recs: seq<Rec>, i: nat)
    requires i <= |recs|
    ensures KeyStart(|recs|) % 16 == 0 && DataStart(recs) % 16 == 0 && DataOff(recs, i) % 16 == 0
  {
    Aligned16(16, CeilTo(24 * |recs|));
    Aligned16(KeyStart(|recs|), CeilTo(|KeyBytes(recs, |recs|)|));
    DataBytesAligned(recs, i);
    Aligned16(DataStart(recs), |DataBytes(recs, i)|);
  }

  /** Padding the running offsets, as the writer does, closes the two gaps. */
  lemma PadsMeet(recs: seq<Rec>)
    ensures var n := |recs|;
      && PadOf(16 + 24 * n) == PadOf(24 * n) && 16 + 24 * n + PadOf(24 * n) == KeyStart(n)
      && PadOf(KeyOff(recs, n)) == PadOf(|KeyBytes(recs, n)|)
      && KeyOff(recs, n) + PadOf(|KeyBytes(recs, n)|) == DataStart(recs)
  {
    var n := |recs|;
    CeilToShift(16, 24 * n);
    AreasAligned(recs, n);
    CeilToShift(KeyStart(n), |KeyBytes(recs, n)|);
  }

  /** Slicing a middle part out of a concatenation. */
  lemma SliceMiddle<T>(a: seq<T>, b: seq<T>, c: seq<T>, lo: nat, hi: nat)
    requires lo <= hi <= |b|
    ensures (a + b + c)[|a| + lo..|a| + hi] == b[lo..hi]
  {
  }

  lemma SliceOfSlice<T>(s: seq<T>, a: nat, b: seq<T>, lo: nat, hi: nat)
    requires a + |b| <= |s| && s[a..a + |b|] == b && lo <= hi <= |b|
    ensures s[a + lo..a + hi] == b[lo..hi]
  {
    forall k | 0 <= k < hi - lo
      ensures s[a + lo..a + hi][k] == b[lo..hi][k]
    {
      assert s[a..a + |b|][lo + k] == s[a + lo + k];
    }
  }

  lemma SliceOfPrefix<T>(s: seq<T>, p: seq<T>, lo: nat, hi: nat)
    requires |p| <= |s| && s[..|p|] == p && lo <= hi <= |p|
    ensures s[lo..hi] == p[lo..hi]
  {
    forall k | 0 <= k < hi - lo
      ensures s[lo..hi][k] == p[lo..hi][k]
    {
      assert s[..|p|][lo + k] == s[lo + k];
    }
  }

  lemma HeaderAt(magic: seq<byte>, recs: seq<Rec>)
    requires |magic| == 8 && WellFormed(recs)
    ensures 16 <= ImageSize(recs)
    ensures Image(magic, recs)[..16] == Header(magic, |recs|)
    ensures Image(magic, recs)[..8] == magic
    ensures Image(magic, recs)[8..12] == Be32(|recs|)
    ensures Image(magic, recs)[12..16] == Be32(16)
  {
    var h := Header(magic, |recs|);
    var img := Image(magic, recs);
    assert img[..16] == h;
    SliceOfPrefix(img, h, 0, 8);
    SliceOfPrefix(img, h, 8, 12);
    SliceOfPrefix(img, h, 12, 16);
  }

  lemma RecordAt(magic: seq<byte>, recs: seq<Rec>, i: nat)
    requires |magic| == 8 && WellFormed(recs) && i < |recs|
    ensures SlotOff(i) + 24 <= KeyStart(|recs|) <= ImageSize(recs)
    ensures Image(magic, recs)[SlotOff(i)..SlotOff(i) + 24] == Record(recs, i)
  {
    hide Record, Be32, CeilTo, KeyBytes, DataBytes;
    var n := |recs|;
    DirBytesAt(recs, i, n);
    var tail := Zeros(PadOf(24 * n)) + KeyBytes(recs, n)
      + Zeros(PadOf(|KeyBytes(recs, n)|)) + DataBytes(recs, n);
    assert Image(magic, recs) == Header(magic, n) + DirBytes(recs, n) + tail;
    SliceMiddle(Header(magic, n), DirBytes(recs, n), tail, 24 * i, 24 * i + 24);
  }

  lemma KeyArea(magic: seq<byte>, recs: seq<Rec>)
    requires |magic| == 8 && WellFormed(recs)
    ensures KeyOff(recs, |recs|) <= DataStart(recs) <= ImageSize(recs)
    ensures Image(magic, recs)[KeyStart(|recs|)..KeyOff(recs, |recs|)] == KeyBytes(recs, |recs|)
  {
    hide KeyBytes, DataBytes, Record, DirBytes, Be32, CeilTo, Zeros, Header;
    var n := |recs|;
    var keys := KeyBytes(recs, n);
    var head := Header(magic, n) + DirBytes(recs, n) + Zeros(PadOf(24 * n));
    var tail := Zeros(PadOf(|keys|)) + DataBytes(recs, n);
    assert Image(magic, recs) == head + keys + tail;
    SliceMiddle(head, keys, tail, 0, |keys|);
  }

  lemma KeyBytesLast(recs: seq<Rec>, i: nat)
    requires i < |recs|
    ensures |KeyBytes(recs, i)| + |recs[i].key| == |KeyBytes(recs, i + 1)|
    ensures KeyBytes(recs, i + 1)[|KeyBytes(recs, i)|..|KeyBytes(recs, i + 1)|] == recs[i].key
  {
  }

  lemma KeyAt(magic: seq<byte>, recs: seq<Rec>, i: nat)
    requires |magic| == 8 && WellFormed(recs) && i < |recs|
    ensures KeyStart(|recs|) <= KeyOff(recs, i)
    ensures KeyOff(recs, i) + |recs[i].key| == KeyOff(recs, i + 1) <= DataStart(recs) <= ImageSize(recs)
    ensures Image(magic, recs)[KeyOff(recs, i)..KeyOff(recs, i + 1)] == recs[i].key
  {
    hide Image, KeyBytes, CeilTo, PadOf, DataBytes, Zeros;
    var keys := KeyBytes(recs, |recs|);
    KeyArea(magic, recs);
    KeyBytesPrefix(recs, i + 1, |recs|);
    var lo, hi := |KeyBytes(recs, i)|, |KeyBytes(recs, i + 1)|;
    KeyBytesLast(recs, i);
    SliceOfPrefix(keys, KeyBytes(recs, i + 1), lo, hi);
    SliceOfSlice(Image(magic, recs), KeyStart(|recs|), keys, lo, hi);
  }

  lemma DataAt(magic: seq<byte>, recs: seq<Rec>, i: nat)
    requires |magic| == 8 && WellFormed(recs) && i < |recs|
    ensures DataStart(recs) <= DataOff(recs, i)
    ensures DataOff(recs, i) + |recs[i].data| <= DataOff(recs, i + 1) <= ImageSize(recs)
    ensures Image(magic, recs)[DataOff(recs, i)..DataOff(recs, i) + |recs[i].data|] == recs[i].data
  {
    hide Record, DirBytes, Be32, CeilTo;
    var n := |recs|;
    var all := DataBytes(recs, n);
    DataBytesPrefix(recs, i + 1, n);
    var keys := KeyBytes(recs, n);
    var head := Header(magic, n) + DirBytes(recs, n) + Zeros(PadOf(24 * n)) + keys + Zeros(PadOf(|keys|));
    assert Image(magic, recs) == head + all + [];
    var part := DataBytes(recs, i + 1);
    var lo := |DataBytes(recs, i)|;
    var hi := lo + |recs[i].data|;
    SliceMiddle(head, all, [], lo, hi);
    SliceOfPrefix(all, part, lo, hi);
  }

  /** The four areas follow each other without overlap, for every pair of slots. */
  lemma AreasDisjoint(recs: seq<Rec>, i: nat, j: nat)
    requires WellFormed(recs) && i < j < |recs|
    ensures 16 <= SlotOff(i) && SlotOff(i) + 24 <= SlotOff(j)
    ensures SlotOff(j) + 24 <= KeyOff(recs, i)
    ensures KeyOff(recs, i) + |recs[i].key| <= KeyOff(recs, j)
    ensures KeyOff(recs, j) + |recs[j].key| <= DataOff(recs, i)
    ensures DataOff(recs, i) + |recs[i].data| <= DataOff(recs, j)
    ensures DataOff(recs, j) + |recs[j].data| <= ImageSize(recs)
  {
    hide CeilTo;
    KeyBytesPrefix(recs, i + 1, j);
    KeyBytesPrefix(recs, j + 1, |recs|);
    DataBytesPrefix(recs, i + 1, j);
    DataBytesPrefix(recs, j + 1, |recs|);
  }
}
