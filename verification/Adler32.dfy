/**
 zend_adler32: the checksum of section 2.2 of RFC 1950, computed in blocks with a deferred
 modulo, sixteen bytes at a time, either in scalar registers or in SSE2 lanes.
 */
module Adler32 {
  import HashCompact
  import opened ZendGraph

  /** unsigned int: every operation on it is shown not to overflow. */
  newtype u32 = x: int | 0 <= x < 0x1_0000_0000

  const BASE: nat := 65521
  const NMAX: nat := 5552

  predicate Prime(n: nat) {
    n >= 2 && forall d: nat | 2 <= d < n :: n % d != 0
  }

  lemma NoSmallDivisor(d: nat)
    requires 2 <= d < 256
    ensures BASE % d != 0
  {
  }

  /** A divisor comes with its cofactor, and one of the two is small. */
  lemma Cofactor(n: nat, d: nat, m: nat)
    requires m <= d < n < m * m && n % d == 0
    ensures 2 <= n / d < m && n % (n / d) == 0
  {
    var q := n / d;
    assert n == d * q;
    if q >= m {
      Times(d, m, q);
      Times(q, m, m);
    }
    HashCompact.Remainder(n, d, q, 0);
  }

  lemma Times(x: nat, y: nat, z: nat)
    requires x >= y
    ensures x * z >= y * z
  {
  }

  /** The modulus of RFC 1950: the largest prime below 65536. */
  lemma BaseIsLargestPrime()
    ensures Prime(BASE) && BASE < 65536 && forall n: nat | BASE < n < 65536 :: !Prime(n)
  {
    forall d: nat | 2 <= d < BASE ensures BASE % d != 0 {
      if d < 256 {
        NoSmallDivisor(d);
      } else if BASE % d == 0 {
        Cofactor(BASE, d, 256);
        NoSmallDivisor(BASE / d);
      }
    }
    forall n: nat | BASE < n < 65536 ensures !Prime(n) {
      assert n % 2 == 0 || n % 3 == 0 || n % 5 == 0 || n % 7 == 0 || n % 13 == 0 || n % 19 == 0;
    }
  }

  /** Blocks are as long as they can be: full bytes on top of the largest reduced sums just fit. */
  lemma NmaxIsLargest(n: nat)
    ensures 255 * (n * (n + 1)) / 2 + (n + 1) * (BASE - 1) <= 0xFFFF_FFFF <==> n <= NMAX
  {
    if n <= NMAX {
      Times(NMAX, n, n + 1);
      assert n * (n + 1) <= NMAX * (NMAX + 1) by { Times(NMAX + 1, n + 1, NMAX); }
    } else {
      Times(n, NMAX + 1, n + 1);
      assert n * (n + 1) >= (NMAX + 1) * (NMAX + 2) by { Times(n + 1, NMAX + 2, NMAX + 1); }
    }
  }

  datatype Sums = Sums(s1: nat, s2: nat)

  // ---------------------------------------------------------------- the standard

  /** One byte, with both sums reduced at once. */
  function AddByte(s: Sums, b: byte): Sums {
    var s1 := (s.s1 + b as nat) % BASE;
    Sums(s1, (s.s2 + s1) % BASE)
  }

  function Adler(s: Sums, bs: seq<byte>): Sums
    decreases bs
  {
    if bs == [] then s else Adler(AddByte(s, bs[0]), bs[1..])
  }

  function Pack(s: Sums): nat {
    65536 * s.s2 + s.s1
  }

  function Unpack(checksum: nat): (s: Sums)
    ensures s.s1 < 65536
  {
    Sums(checksum % 65536, checksum / 65536)
  }

  lemma {:induction false} AdlerAppend(s: Sums, a: seq<byte>, b: seq<byte>)
    ensures Adler(s, a + b) == Adler(Adler(s, a), b)
    decreases a
  {
    if a == [] { assert a + b == b; } else {
      AdlerAppend(AddByte(s, a[0]), a[1..], b);
      assert (a + b)[1..] == a[1..] + b;
    }
  }

  lemma {:induction false} AdlerSmall(s: Sums, bs: seq<byte>)
    requires s.s1 < 65536 && s.s2 < 65536
    ensures Adler(s, bs).s1 < 65536 && Adler(s, bs).s2 < 65536
    decreases bs
  {
    if bs != [] { AdlerSmall(AddByte(s, bs[0]), bs[1..]); }
  }

  /** Checksumming two buffers in turn is checksumming their concatenation. */
  lemma TwoBuffers(checksum: nat, a: seq<byte>, b: seq<byte>)
    requires checksum < 0x1_0000_0000
    ensures Pack(Adler(Unpack(Pack(Adler(Unpack(checksum), a))), b)) == Pack(Adler(Unpack(checksum), a + b))
  {
    AdlerSmall(Unpack(checksum), a);
    AdlerAppend(Unpack(checksum), a, b);
    assert Unpack(Pack(Adler(Unpack(checksum), a))) == Adler(Unpack(checksum), a);
  }

  // ---------------------------------------------------------------- exact sums

  /** The same sums without any reduction. */
  function Exact(s: Sums, bs: seq<byte>): Sums
    decreases bs
  {
    if bs == [] then s else Exact(Sums(s.s1 + bs[0] as nat, s.s2 + s.s1 + bs[0] as nat), bs[1..])
  }

  function Reduced(s: Sums): Sums {
    Sums(s.s1 % BASE, s.s2 % BASE)
  }

  lemma {:induction false} ExactAppend(s: Sums, a: seq<byte>, b: seq<byte>)
    ensures Exact(s, a + b) == Exact(Exact(s, a), b)
    decreases a
  {
    if a == [] { assert a + b == b; } else {
      ExactAppend(Sums(s.s1 + a[0] as nat, s.s2 + s.s1 + a[0] as nat), a[1..], b);
      assert (a + b)[1..] == a[1..] + b;
    }
  }

  lemma SameModulo(x: nat, y: nat, d: nat)
    requires x % BASE == y % BASE
    ensures (x + d) % BASE == (y + d) % BASE
  {
  }

  lemma ReducedStep(s: Sums, t: Sums, b: byte)
    requires Reduced(s) == Reduced(t)
    ensures Reduced(AddByte(s, b)) == Reduced(Sums(t.s1 + b as nat, t.s2 + t.s1 + b as nat))
  {
    var d, m := b as nat, (s.s1 + b as nat) % BASE;
    SameModulo(s.s1, t.s1, d);
    SameModulo(s.s2, t.s2, m);
    SameModulo(m, t.s1 + d, t.s2);
    assert t.s2 + m == m + t.s2 && t.s1 + d + t.s2 == t.s2 + t.s1 + d;
  }

  lemma {:induction false} ReducedAdler(s: Sums, t: Sums, bs: seq<byte>)
    requires Reduced(s) == Reduced(t)
    ensures Reduced(Adler(s, bs)) == Reduced(Exact(t, bs))
    decreases bs
  {
    if bs != [] {
      ReducedStep(s, t, bs[0]);
      ReducedAdler(AddByte(s, bs[0]), Sums(t.s1 + bs[0] as nat, t.s2 + t.s1 + bs[0] as nat), bs[1..]);
    }
  }

  lemma {:induction false} AdlerIsReduced(s: Sums, bs: seq<byte>)
    requires bs != [] || (s.s1 < BASE && s.s2 < BASE)
    ensures Reduced(Adler(s, bs)) == Adler(s, bs)
    decreases bs
  {
    if bs != [] { AdlerIsReduced(AddByte(s, bs[0]), bs[1..]); }
  }

  /** One reduction at the end of a nonempty block is as good as one after every byte. */
  lemma DeferredModulo(s: Sums, bs: seq<byte>)
    requires bs != []
    ensures Reduced(Exact(s, bs)) == Adler(s, bs)
  {
    ReducedAdler(s, s, bs);
    AdlerIsReduced(s, bs);
  }

  // ---------------------------------------------------------------- bounds

  /** The closed form of the exact sums. */
  function Total(bs: seq<byte>): nat {
    if bs == [] then 0 else bs[0] as nat + Total(bs[1..])
  }

  function Weighted(bs: seq<byte>): nat {
    if bs == [] then 0 else |bs| * bs[0] as nat + Weighted(bs[1..])
  }

  lemma {:induction false} ExactClosed(s: Sums, bs: seq<byte>)
    ensures Exact(s, bs) == Sums(s.s1 + Total(bs), s.s2 + |bs| * s.s1 + Weighted(bs))
    decreases bs
  {
    if bs != [] {
      var b := bs[0] as nat;
      ExactClosed(Sums(s.s1 + b, s.s2 + s.s1 + b), bs[1..]);
      Distribute(|bs|, s.s1, b);
    }
  }

  lemma Distribute(n: nat, x: nat, y: nat)
    ensures (n - 1) * (x + y) == n * x + n * y - x - y
  {
  }

  /** From the initial value 1: s1 is one more than the sum of the bytes, s2 the sum of the running s1. */
  lemma FromInitialValue(bs: seq<byte>)
    ensures Adler(Unpack(1), bs) == Sums((1 + Total(bs)) % BASE, (|bs| + Weighted(bs)) % BASE)
    ensures Pack(Adler(Unpack(1), bs)) == 65536 * ((|bs| + Weighted(bs)) % 65521) + (1 + Total(bs)) % 65521
  {
    ExactClosed(Unpack(1), bs);
    if bs != [] { DeferredModulo(Unpack(1), bs); }
  }

  lemma {:induction false} WeightedBound(bs: seq<byte>)
    ensures Total(bs) <= 255 * |bs| && 2 * Weighted(bs) <= 255 * |bs| * (|bs| + 1)
  {
    if bs != [] {
      WeightedBound(bs[1..]);
      var n := |bs|;
      assert n * bs[0] as nat <= n * 255;
      assert 255 * (n - 1) * n + 2 * (255 * n) == 255 * n * (n + 1);
    }
  }

  /** Within one block of NMAX bytes the sums fit in 32 bits, whatever the checksum was. */
  lemma BlockFits(s: Sums, bs: seq<byte>)
    requires s.s1 < 65536 && s.s2 < 65536 && |bs| <= NMAX
    ensures Exact(s, bs).s1 < 0x1_0000_0000 && Exact(s, bs).s2 < 0x1_0000_0000
  {
    hide Exact, Total, Weighted;
    ExactClosed(s, bs);
    WeightedBound(bs);
    var n := |bs|;
    Product(n, s.s1, NMAX, 65535);
    Product(n, n + 1, NMAX, NMAX + 1);
    assert 255 * n * (n + 1) == 255 * (n * (n + 1));
  }

  lemma Product(a: nat, b: nat, c: nat, d: nat)
    requires a <= c && b <= d
    ensures a * b <= c * d
  {
    assert a * b <= a * d && a * d <= c * d;
  }

  /** Sums only grow along a block. */
  lemma PrefixFits(s: Sums, bs: seq<byte>, k: nat)
    requires k <= |bs|
    ensures Exact(s, bs[..k]).s1 <= Exact(s, bs).s1 && Exact(s, bs[..k]).s2 <= Exact(s, bs).s2
  {
    assert bs == bs[..k] + bs[k..];
    ExactAppend(s, bs[..k], bs[k..]);
    ExactClosed(Exact(s, bs[..k]), bs[k..]);
  }

  // ---------------------------------------------------------------- the scalar loop

  /** The sums over buf[from..to]. */
  function Slice(s1: nat, s2: nat, buf: seq<byte>, from: nat, to: nat): Sums
    requires from <= to <= |buf|
  {
    Exact(Sums(s1, s2), buf[from..to])
  }

  lemma NoSlice(s: Sums, buf: seq<byte>, at: nat)
    requires at <= |buf|
    ensures Slice(s.s1, s.s2, buf, at, at) == s
  {
    assert buf[at..at] == [];
  }

  lemma SliceStep(s1: nat, s2: nat, buf: seq<byte>, from: nat, i: nat)
    requires from <= i < |buf|
    ensures var before, after := Slice(s1, s2, buf, from, i), Slice(s1, s2, buf, from, i + 1);
            after.s1 == before.s1 + buf[i] as nat && after.s2 == before.s2 + after.s1
  {
    assert buf[from..i + 1] == buf[from..i] + [buf[i]];
    ExactAppend(Sums(s1, s2), buf[from..i], [buf[i]]);
  }

  ghost predicate Fits(s: Sums) {
    s.s1 < 0x1_0000_0000 && s.s2 < 0x1_0000_0000
  }

  lemma SliceFits(s1: nat, s2: nat, buf: seq<byte>, from: nat, i: nat, to: nat)
    requires from <= i <= to <= |buf| && Fits(Slice(s1, s2, buf, from, to))
    ensures Fits(Slice(s1, s2, buf, from, i))
  {
    PrefixFits(Sums(s1, s2), buf[from..to], i - from);
    assert buf[from..to][..i - from] == buf[from..i];
  }

  /** ADLER32_SCALAR_DO1 over buf[from..to]; DO16 is sixteen of these. */
  method ScalarLoop(buf: seq<byte>, from: nat, to: nat, a: u32, b: u32) returns (s1: u32, s2: u32)
    requires from <= to <= |buf| && Fits(Slice(a as nat, b as nat, buf, from, to))
    ensures Sums(s1 as nat, s2 as nat) == Slice(a as nat, b as nat, buf, from, to)
  {
    s1, s2 := a, b;
    var i := from;
    while i < to
      invariant from <= i <= to
      invariant Sums(s1 as nat, s2 as nat) == Slice(a as nat, b as nat, buf, from, i)
    {
      SliceStep(a as nat, b as nat, buf, from, i);
      SliceFits(a as nat, b as nat, buf, from, i + 1, to);
      s1 := s1 + buf[i] as u32;
      s2 := s2 + s1;
      i := i + 1;
    }
  }

  // ---------------------------------------------------------------- the SSE2 loop

  type i16 = x: int | -32768 <= x < 32768

  type Bytes16 = bs: seq<byte> | |bs| == 16 witness seq(16, i => 0)
  type Words8 = ws: seq<i16> | |ws| == 8 witness seq(8, i => 0)

  /** Four 32-bit elements of an __m128i, lowest first. */
  datatype Lanes = Lanes(x0: u32, x1: u32, x2: u32, x3: u32) {
    function Sum(): nat { x0 as nat + x1 as nat + x2 as nat + x3 as nat }
  }

  /** Two's complement, modulo 2^32. */
  function Wrap32(x: int): (r: u32)
    ensures 0 <= x < 0x1_0000_0000 ==> r as int == x
  {
    (x % 0x1_0000_0000) as u32
  }

  /** _mm_unpacklo_epi8(read, zero) and _mm_unpackhi_epi8(read, zero) */
  function UnpackLo(r: Bytes16): Words8 { seq(8, i requires 0 <= i < 8 => r[i] as i16) }
  function UnpackHi(r: Bytes16): Words8 { seq(8, i requires 0 <= i < 8 => r[8 + i] as i16) }

  function Dot(a: i16, b: i16, c: i16, d: i16): int { (a as int) * (b as int) + (c as int) * (d as int) }

  /** _mm_madd_epi16 */
  function Madd(a: Words8, b: Words8): Lanes {
    Lanes(Wrap32(Dot(a[0], b[0], a[1], b[1])), Wrap32(Dot(a[2], b[2], a[3], b[3])),
          Wrap32(Dot(a[4], b[4], a[5], b[5])), Wrap32(Dot(a[6], b[6], a[7], b[7])))
  }

  /** _mm_add_epi32 */
  function Add(a: Lanes, b: Lanes): Lanes {
    Lanes(Wrap32(a.x0 as nat + b.x0 as nat), Wrap32(a.x1 as nat + b.x1 as nat),
          Wrap32(a.x2 as nat + b.x2 as nat), Wrap32(a.x3 as nat + b.x3 as nat))
  }

  /** _mm_sad_epu8(read, zero): the sums of the two halves. */
  function Sad(r: Bytes16): (nat, nat) {
    (r[0] as nat + r[1] as nat + r[2] as nat + r[3] as nat + r[4] as nat + r[5] as nat + r[6] as nat + r[7] as nat,
     r[8] as nat + r[9] as nat + r[10] as nat + r[11] as nat
       + r[12] as nat + r[13] as nat + r[14] as nat + r[15] as nat)
  }

  function Lane(a: Lanes, i: nat): u32 {
    if i == 0 then a.x0 else if i == 1 then a.x1 else if i == 2 then a.x2 else a.x3
  }

  /** _mm_shuffle_epi32(a, _MM_SHUFFLE(z, y, x, w)) */
  function Shuffle(a: Lanes, z: nat, y: nat, x: nat, w: nat): Lanes {
    Lanes(Lane(a, w), Lane(a, x), Lane(a, y), Lane(a, z))
  }

  lemma SuffixStep(bs: seq<byte>, i: nat)
    requires i < |bs|
    ensures Total(bs[i..]) == bs[i] as nat + Total(bs[i + 1..])
    ensures Weighted(bs[i..]) == (|bs| - i) * bs[i] as nat + Weighted(bs[i + 1..])
  {
    assert bs[i..][1..] == bs[i + 1..];
  }

  /** The lanes of one chunk: together they hold the weighted sum of its sixteen bytes. */
  function ChunkLanes(r: Bytes16): Lanes {
    Add(Madd(UnpackLo(r), [16, 15, 14, 13, 12, 11, 10, 9]), Madd(UnpackHi(r), [8, 7, 6, 5, 4, 3, 2, 1]))
  }

  lemma ChunkTotals(r: Bytes16)
    ensures Sad(r).0 + Sad(r).1 == Total(r)
    ensures Sad(r).0 < 65536 && Sad(r).1 < 65536
    ensures Weighted(r) == 16 * r[0] as nat + 15 * r[1] as nat + 14 * r[2] as nat + 13 * r[3] as nat
                         + 12 * r[4] as nat + 11 * r[5] as nat + 10 * r[6] as nat + 9 * r[7] as nat
                         + 8 * r[8] as nat + 7 * r[9] as nat + 6 * r[10] as nat + 5 * r[11] as nat
                         + 4 * r[12] as nat + 3 * r[13] as nat + 2 * r[14] as nat + r[15] as nat
  {
    hide Total, Weighted;
    forall i | 0 <= i < 16
      ensures Total(r[i..]) == r[i] as nat + Total(r[i + 1..])
      ensures Weighted(r[i..]) == (16 - i) * r[i] as nat + Weighted(r[i + 1..])
    { SuffixStep(r, i); }
    assert r[0..] == r && r[16..] == [];
    NothingSums();
    SuffixStep(r, 0); SuffixStep(r, 1); SuffixStep(r, 2); SuffixStep(r, 3);
    SuffixStep(r, 4); SuffixStep(r, 5); SuffixStep(r, 6); SuffixStep(r, 7);
    SuffixStep(r, 8); SuffixStep(r, 9); SuffixStep(r, 10); SuffixStep(r, 11);
    SuffixStep(r, 12); SuffixStep(r, 13); SuffixStep(r, 14); SuffixStep(r, 15);
  }

  lemma NothingSums()
    ensures Total([]) == 0 && Weighted([]) == 0
  {
  }

  lemma LowHalf(r: Bytes16)
    ensures Madd(UnpackLo(r), [16, 15, 14, 13, 12, 11, 10, 9])
         == Lanes((16 * r[0] as int + 15 * r[1] as int) as u32, (14 * r[2] as int + 13 * r[3] as int) as u32,
                  (12 * r[4] as int + 11 * r[5] as int) as u32, (10 * r[6] as int + 9 * r[7] as int) as u32)
  {
    hide Wrap32;
  }

  lemma HighHalf(r: Bytes16)
    ensures Madd(UnpackHi(r), [8, 7, 6, 5, 4, 3, 2, 1])
         == Lanes((8 * r[8] as int + 7 * r[9] as int) as u32, (6 * r[10] as int + 5 * r[11] as int) as u32,
                  (4 * r[12] as int + 3 * r[13] as int) as u32, (2 * r[14] as int + r[15] as int) as u32)
  {
    hide Wrap32;
  }

  /** No lane of one chunk carries, so its four lanes add up to the weighted sum. */
  lemma ChunkIsWeighted(r: Bytes16)
    ensures ChunkLanes(r).Sum() == Weighted(r)
  {
    hide Weighted, Total, Sad, Wrap32, Madd;
    ChunkTotals(r);
    LowHalf(r);
    HighHalf(r);
  }

  /** The two shuffles leave the sum of all four lanes in the lowest one. */
  lemma HorizontalSum(a: Lanes)
    requires a.Sum() < 0x1_0000_0000
    ensures var once := Add(a, Shuffle(a, 1, 0, 0, 2));
            Add(once, Shuffle(once, 3, 3, 3, 3)).x0 as nat == a.Sum()
  {
    hide Wrap32;
  }

  lemma ChunkStep(s1: nat, s2: nat, buf: seq<byte>, from: nat, i: nat)
    requires from <= i && i + 16 <= |buf|
    ensures var before, after := Slice(s1, s2, buf, from, i), Slice(s1, s2, buf, from, i + 16);
            var r: Bytes16 := buf[i..i + 16];
            after.s1 == before.s1 + Sad(r).0 + Sad(r).1
            && after.s2 == before.s2 + 16 * before.s1 + ChunkLanes(r).Sum()
  {
    hide Weighted, Total, Sad, ChunkLanes, Lanes.Sum, Exact;
    var r: Bytes16 := buf[i..i + 16];
    assert buf[from..i + 16] == buf[from..i] + r;
    ExactAppend(Sums(s1, s2), buf[from..i], r);
    ExactClosed(Slice(s1, s2, buf, from, i), r);
    ChunkTotals(r);
    ChunkIsWeighted(r);
  }

  /** Adding a chunk to the accumulator carries nowhere while the total fits. */
  lemma LanesAdd(a: Lanes, b: Lanes)
    requires a.Sum() + b.Sum() < 0x1_0000_0000
    ensures Add(a, b).Sum() == a.Sum() + b.Sum()
  {
    hide Wrap32;
  }

  /** adler32_do16_loop under __SSE2__ over buf[from..to]. */
  method SimdLoop(buf: seq<byte>, from: nat, to: nat, a: u32, b: u32) returns (s1: u32, s2: u32)
    requires from < to <= |buf| && (to - from) % 16 == 0 && Fits(Slice(a as nat, b as nat, buf, from, to))
    ensures Sums(s1 as nat, s2 as nat) == Slice(a as nat, b as nat, buf, from, to)
  {
    hide Exact, Slice, ChunkLanes, Add, Shuffle, Lanes.Sum, Sad;
    s1, s2 := a, b;
    var lanes, sums := Lanes(0, 0, 0, 0), 0 as u32;
    NoSlice(Sums(a as nat, b as nat), buf, from);
    NoLanes();
    var i := from;
    while i < to
      invariant from <= i <= to && (to - i) % 16 == 0
      invariant s1 as nat == Slice(a as nat, b as nat, buf, from, i).s1 && s2 == b
      invariant b as nat + 16 * sums as nat + lanes.Sum() == Slice(a as nat, b as nat, buf, from, i).s2
    {
      var read: Bytes16 := buf[i..i + 16];
      ChunkStep(a as nat, b as nat, buf, from, i);
      SliceFits(a as nat, b as nat, buf, from, i + 16, to);
      LanesAdd(lanes, ChunkLanes(read));
      ChunkTotals(read);
      lanes := Add(lanes, ChunkLanes(read));
      sums := sums + s1;
      s1 := s1 + (Sad(read).0 as u32 + Sad(read).1 as u32);
      i := i + 16;
    }
    HorizontalSum(lanes);
    lanes := Add(lanes, Shuffle(lanes, 1, 0, 0, 2));
    lanes := Add(lanes, Shuffle(lanes, 3, 3, 3, 3));
    s2 := s2 + (sums * 16 + lanes.x0);
  }

  lemma NoLanes()
    ensures Lanes(0, 0, 0, 0).Sum() == 0
  {
  }

  // ---------------------------------------------------------------- zend_adler32

  /** Sixteen bytes at a time, in the form the build selects. */
  method Do16Loop(buf: seq<byte>, from: nat, to: nat, a: u32, b: u32, sse2: bool) returns (s1: u32, s2: u32)
    requires from < to <= |buf| && (to - from) % 16 == 0 && Fits(Slice(a as nat, b as nat, buf, from, to))
    ensures Sums(s1 as nat, s2 as nat) == Slice(a as nat, b as nat, buf, from, to)
  {
    if sse2 {
      s1, s2 := SimdLoop(buf, from, to, a, b);
    } else {
      s1, s2 := ScalarLoop(buf, from, to, a, b);
    }
  }

  lemma PrefixStep(start: Sums, buf: seq<byte>, from: nat, to: nat)
    requires from < to <= |buf|
    ensures var s := Adler(start, buf[..from]);
            Reduced(Slice(s.s1, s.s2, buf, from, to)) == Adler(start, buf[..to])
  {
    assert buf[..to] == buf[..from] + buf[from..to];
    AdlerAppend(start, buf[..from], buf[from..to]);
    DeferredModulo(Adler(start, buf[..from]), buf[from..to]);
  }

  lemma SliceJoin(s: Sums, buf: seq<byte>, from: nat, mid: nat, to: nat)
    requires from <= mid <= to <= |buf|
    ensures var m := Slice(s.s1, s.s2, buf, from, mid);
            Slice(m.s1, m.s2, buf, mid, to) == Slice(s.s1, s.s2, buf, from, to)
  {
    assert buf[from..to] == buf[from..mid] + buf[mid..to];
    ExactAppend(s, buf[from..mid], buf[mid..to]);
  }

  lemma StartFits(start: Sums, buf: seq<byte>, from: nat, to: nat)
    requires start.s1 < 65536 && start.s2 < 65536 && from <= to <= |buf| && to - from <= NMAX
    ensures var s := Adler(start, buf[..from]);
            s.s1 < 65536 && s.s2 < 65536 && Fits(Slice(s.s1, s.s2, buf, from, to))
  {
    AdlerSmall(start, buf[..from]);
    BlockFits(Adler(start, buf[..from]), buf[from..to]);
  }

  method Adler32(checksum: u32, buf: seq<byte>, sse2: bool) returns (r: u32)
    ensures r as nat == Pack(Adler(Unpack(checksum as nat), buf))
  {
    hide Adler, Exact, Slice;
    ghost var start := Unpack(checksum as nat);
    var s1, s2 := checksum % 65536, checksum / 65536;
    var at, len := 0, |buf|;
    NoBytes(start, buf);
    while len >= NMAX
      invariant 0 <= at && 0 <= len && at + len == |buf|
      invariant Sums(s1 as nat, s2 as nat) == Adler(start, buf[..at])
    {
      len := len - NMAX;
      StartFits(start, buf, at, at + NMAX);
      PrefixStep(start, buf, at, at + NMAX);
      s1, s2 := Do16Loop(buf, at, at + NMAX, s1, s2, sse2);
      at := at + NMAX;
      s1, s2 := s1 % 65521, s2 % 65521;
    }
    AdlerSmall(start, buf[..at]);
    assert buf[..|buf|] == buf;
    if len != 0 {
      StartFits(start, buf, at, |buf|);
      PrefixStep(start, buf, at, |buf|);
      ghost var from, before := at, Sums(s1 as nat, s2 as nat);
      if len >= 16 {
        var end := at + len / 16 * 16;
        SliceJoin(before, buf, from, end, |buf|);
        SliceFits(before.s1, before.s2, buf, from, end, |buf|);
        s1, s2 := Do16Loop(buf, at, end, s1, s2, sse2);
        at, len := end, len % 16;
      }
      if len != 0 {
        s1, s2 := ScalarLoop(buf, at, |buf|, s1, s2);
      } else {
        NoSlice(Sums(s1 as nat, s2 as nat), buf, |buf|);
      }
      assert Sums(s1 as nat, s2 as nat) == Slice(before.s1, before.s2, buf, from, |buf|);
      s1, s2 := s1 % 65521, s2 % 65521;
      AdlerSmall(start, buf);
    }
    r := s2 * 65536 + s1;
  }

  lemma NoBytes(start: Sums, buf: seq<byte>)
    ensures Adler(start, buf[..0]) == start
  {
  }
}
