/**
 Compaction of a sparse hash table: zend_hash_persist halves an oversized hash part and
 rebuilds every collision chain over the copied buckets.  The rebuilt chains are compared
 with the plain bucket list, which is what the table means.
 */
module HashCompact {
  import opened MachineWords

  const HT_MIN_SIZE: nat := 8
  const INVALID_IDX: nat := 0xFFFF_FFFF

  ghost predicate PowerOfTwo(n: nat) {
    exists k: nat :: n == Pow2(k)
  }

  function Pow2(k: nat): (r: nat)
    ensures r >= 1
  {
    if k == 0 then 1 else 2 * Pow2(k - 1)
  }

  /** The guard in front of the compacting branch. */
  predicate Sparse(hashSize: nat, used: nat) {
    used > HT_MIN_SIZE && used < hashSize / 4
  }

  /** Where the halving loop stops. */
  function CompactSize(hashSize: nat, used: nat): nat {
    if hashSize / 4 > used then CompactSize(hashSize / 2, used) else hashSize
  }

  /** The chosen size is still a power of two greater than twice the used buckets, and a
      quarter of it no longer exceeds them. */
  lemma {:induction false} CompactSizeBounds(hashSize: nat, used: nat)
    requires PowerOfTwo(hashSize) && used > 0
    requires hashSize > 2 * used
    ensures var s := CompactSize(hashSize, used);
            PowerOfTwo(s) && 2 * used < s && s / 4 <= used && s <= hashSize
    decreases hashSize
  {
    if hashSize / 4 > used {
      HalfPower(hashSize);
      CompactSizeBounds(hashSize / 2, used);
    }
  }

  lemma HalfPower(n: nat)
    requires PowerOfTwo(n) && n > 1
    ensures PowerOfTwo(n / 2) && n % 2 == 0
  {
    var k: nat :| n == Pow2(k);
    assert n == 2 * Pow2(k - 1);
  }

  // ---------------------------------------------------------------- the slot of a hash

  /** Bitwise or. */
  function BitOr(a: nat, b: nat): nat
    decreases a + b
  {
    if a == 0 && b == 0 then 0
    else 2 * BitOr(a / 2, b / 2) + if a % 2 == 1 || b % 2 == 1 then 1 else 0
  }

  lemma NoSmallMultiple(m: nat, d: int)
    ensures d >= 1 ==> m * d >= m
    ensures d <= -1 ==> m * d <= 0 - m
  {
    if d >= 1 { assert m * d == m + m * (d - 1); }
    if d <= -1 { assert m * d == m * (d + 1) - m; }
  }

  lemma Remainder(x: nat, q: nat, m: nat, r: nat)
    requires x == m * q + r && r < m
    ensures x % m == r
  {
    var d := x / m - q;
    assert m * (x / m) - m * q == m * d;
    NoSmallMultiple(m, d);
  }

  lemma HalfRemainder(h: nat, p: nat)
    requires p > 0
    ensures h % (2 * p) == 2 * (h / 2 % p) + h % 2
  {
    var q, r := h / 2 / p, h / 2 % p;
    assert (2 * p) * q == 2 * (p * q);
    Remainder(h, q, 2 * p, 2 * r + h % 2);
  }

  lemma Pow2Step(k: nat)
    ensures Pow2(k) == if k == 0 then 1 else 2 * Pow2(k - 1)
  {
  }

  lemma OrNothing()
    ensures BitOr(0, 0) == 0
  {
  }

  lemma OrOdd(a: nat, b: nat)
    requires b % 2 == 1
    ensures BitOr(a, b) == 2 * BitOr(a / 2, b / 2) + 1
  {
  }

  lemma OrEven(a: nat, b: nat)
    requires b % 2 == 0
    ensures BitOr(a, b) == 2 * BitOr(a / 2, b / 2) + a % 2
  {
    if a == 0 && b == 0 { assert BitOr(0, 0) == 0; }
  }

  lemma {:induction false} OrAllOnes(w: nat, h: nat)
    requires h < Pow2(w)
    ensures BitOr(h, Pow2(w) - 1) == Pow2(w) - 1
  {
    hide BitOr, Pow2;
    Pow2Step(w);
    if w == 0 {
      OrNothing();
    } else {
      var top := Pow2(w - 1);
      OrAllOnes(w - 1, h / 2);
      OrOdd(h, 2 * top - 1);
      assert (2 * top - 1) / 2 == top - 1;
    }
  }

  /** Setting all bits from k up to w leaves the remainder by 2^k below them. */
  lemma {:induction false} OrHighOnes(w: nat, k: nat, h: nat)
    requires k <= w && h < Pow2(w)
    ensures Pow2(k) <= Pow2(w) && BitOr(h, Pow2(w) - Pow2(k)) == Pow2(w) - Pow2(k) + h % Pow2(k)
    decreases k
  {
    hide BitOr, Pow2;
    Pow2Step(w);
    Pow2Step(k);
    if k == 0 {
      OrAllOnes(w, h);
    } else {
      var p, top := Pow2(k - 1), Pow2(w - 1);
      OrHighOnes(w - 1, k - 1, h / 2);
      OrEven(h, 2 * top - 2 * p);
      assert (2 * top - 2 * p) / 2 == top - p;
      HalfRemainder(h, p);
    }
  }

  lemma {:induction false} Pow2Product(a: nat, b: nat)
    ensures Pow2(a + b) == Pow2(a) * Pow2(b)
  {
    if b > 0 {
      Pow2Product(a, b - 1);
      assert Pow2(a) * (2 * Pow2(b - 1)) == 2 * (Pow2(a) * Pow2(b - 1));
    }
  }

  lemma WordOfBits()
    ensures Pow2(32) == UINT32
  {
    assert Pow2(4) == 16 && Pow2(8) == 256;
    Pow2Product(8, 8);
    Pow2Product(16, 16);
  }

  /** A multiple of m * n is one of m. */
  lemma SplitRemainder(m: nat, n: nat, q: nat, x: nat)
    requires m > 0
    ensures ((m * n) * q + x) % m == x % m
  {
    var c, r := x / m, x % m;
    Regroup(m, n, q, c);
    Remainder((m * n) * q + x, n * q + c, m, r);
  }

  lemma Regroup(m: nat, n: nat, q: nat, c: nat)
    ensures (m * n) * q + m * c == m * (n * q + c)
  {
    assert (m * n) * q == m * (n * q);
  }

  /** Cutting off to 32 bits first does not change the remainder by a smaller power of two. */
  lemma TruncatedRemainder(h: nat, k: nat)
    requires k <= 32
    ensures h % UINT32 % Pow2(k) == h % Pow2(k)
  {
    WordOfBits();
    Pow2Product(k, 32 - k);
    var m, n := Pow2(k), Pow2(32 - k);
    hide Pow2;
    SplitRemainder(m, n, h / UINT32, h % UINT32);
    assert h == UINT32 * (h / UINT32) + h % UINT32;
  }

  lemma BigExponent(k: nat)
    requires k >= 32
    ensures Pow2(k) >= UINT32
  {
    WordOfBits();
    Pow2Product(32, k - 32);
    NoSmallMultiple(UINT32, Pow2(k - 32));
  }

  /**
   nIndex = p->h | nTableMask in 32 bits, where nTableMask is the negated size: a negative offset from
   arData into the hash part, size words long, at position h modulo size.
   */
  lemma MaskedIndex(h: nat, size: nat)
    requires PowerOfTwo(size) && size < UINT32
    ensures BitOr(h % UINT32, UINT32 - size) == UINT32 - size + h % size
  {
    var k: nat :| size == Pow2(k);
    if k >= 32 { BigExponent(k); }
    WordOfBits();
    hide Pow2, BitOr;
    OrHighOnes(32, k, h % UINT32);
    TruncatedRemainder(h, k);
  }

  // ---------------------------------------------------------------- buckets and chains

  /** key stands for the (h, key) pair a lookup compares; next is Z_NEXT(val). */
  datatype Bucket = Bucket(h: nat, key: nat, live: bool, next: nat)

  /** Same bucket, whatever its chain link. */
  predicate SameEntry(a: Bucket, b: Bucket) {
    a.h == b.h && a.key == b.key && a.live == b.live
  }

  /** The live buckets below n that hash to slot, newest first: the specification of a chain. */
  function ChainSpec(bs: seq<Bucket>, size: nat, slot: nat, n: nat): (c: seq<nat>)
    requires n <= |bs| && size > 0
    ensures forall k :: 0 <= k < |c| ==> c[k] < n
  {
    if n == 0 then []
    else if bs[n - 1].live && bs[n - 1].h % size == slot then
      [n - 1] + ChainSpec(bs, size, slot, n - 1)
    else ChainSpec(bs, size, slot, n - 1)
  }

  /** Following next links from head visits exactly chain and then stops. */
  predicate Linked(bs: seq<Bucket>, head: nat, chain: seq<nat>)
    decreases |chain|
  {
    if chain == [] then head == INVALID_IDX
    else chain[0] < |bs| && head == chain[0] && Linked(bs, bs[head].next, chain[1..])
  }

  /** A lookup as the engine does it: follow the chain until the key matches. */
  function Follow(bs: seq<Bucket>, chain: seq<nat>, key: nat): nat
    requires forall k :: 0 <= k < |chain| ==> chain[k] < |bs|
  {
    if chain == [] then INVALID_IDX
    else if bs[chain[0]].key == key then chain[0]
    else Follow(bs, chain[1..], key)
  }

  lemma {:induction false} ChainMembers(bs: seq<Bucket>, size: nat, slot: nat, n: nat, i: nat)
    requires n <= |bs| && size > 0
    ensures i in ChainSpec(bs, size, slot, n) <==> i < n && bs[i].live && bs[i].h % size == slot
  {
    if n > 0 { ChainMembers(bs, size, slot, n - 1, i); }
  }

  lemma {:induction false} ChainDescends(bs: seq<Bucket>, size: nat, slot: nat, n: nat)
    requires n <= |bs| && size > 0
    ensures forall j, k :: 0 <= j < k < |ChainSpec(bs, size, slot, n)| ==>
              ChainSpec(bs, size, slot, n)[j] > ChainSpec(bs, size, slot, n)[k]
  {
    if n > 0 { ChainDescends(bs, size, slot, n - 1); }
  }

  lemma {:induction false} ChainIgnoresLinks(a: seq<Bucket>, b: seq<Bucket>, size: nat, slot: nat, n: nat)
    requires n <= |a| && n <= |b| && size > 0
    requires forall i :: 0 <= i < n ==> SameEntry(a[i], b[i])
    ensures ChainSpec(a, size, slot, n) == ChainSpec(b, size, slot, n)
  {
    if n > 0 { ChainIgnoresLinks(a, b, size, slot, n - 1); }
  }

  /** Relinking a bucket outside the chain leaves the chain intact. */
  lemma {:induction false} LinkedFrame(a: seq<Bucket>, b: seq<Bucket>, head: nat, chain: seq<nat>)
    requires Linked(a, head, chain) && |a| == |b|
    requires forall k :: 0 <= k < |chain| ==> chain[k] < |a| && a[chain[k]].next == b[chain[k]].next
    ensures Linked(b, head, chain)
    decreases |chain|
  {
    if chain != [] { LinkedFrame(a, b, a[head].next, chain[1..]); }
  }

  /** Putting bucket idx in front of its own chain extends that chain and no other. */
  lemma PrependLink(bs: seq<Bucket>, size: nat, slot: nat, idx: nat, head: nat, own: nat)
    requires idx < |bs| && bs[idx].live && size > 0
    requires Linked(bs, head, ChainSpec(bs, size, slot, idx))
    requires slot == bs[idx].h % size ==> own == head
    ensures var after := bs[idx := bs[idx].(next := own)];
            Linked(after, if slot == bs[idx].h % size then idx else head, ChainSpec(after, size, slot, idx + 1))
  {
    var after := bs[idx := bs[idx].(next := own)];
    var chain := ChainSpec(bs, size, slot, idx);
    ChainIgnoresLinks(bs, after, size, slot, idx);
    LinkedFrame(bs, after, head, chain);
    assert ([idx] + chain)[1..] == chain;
  }

  lemma NoChainYet(bs: seq<Bucket>, size: nat, slot: nat)
    requires size > 0
    ensures Linked(bs, INVALID_IDX, ChainSpec(bs, size, slot, 0))
  {
  }

  lemma DeadIsSkipped(bs: seq<Bucket>, size: nat, slot: nat, idx: nat)
    requires size > 0 && idx < |bs| && !bs[idx].live
    ensures ChainSpec(bs, size, slot, idx + 1) == ChainSpec(bs, size, slot, idx)
  {
  }

  /** Keys identify live buckets, as in every zend hash table. */
  predicate UniqueKeys(bs: seq<Bucket>) {
    && (forall i, j :: 0 <= i < j < |bs| && bs[i].live && bs[j].live ==> bs[i].key != bs[j].key)
  }

  lemma {:induction false} FollowFinds(bs: seq<Bucket>, chain: seq<nat>, key: nat, i: nat)
    requires forall k :: 0 <= k < |chain| ==> chain[k] < |bs| && bs[chain[k]].live
    requires UniqueKeys(bs) && i in chain && bs[i].key == key
    ensures Follow(bs, chain, key) == i
  {
    if chain[0] != i {
      assert bs[chain[0]].key != key;
      FollowFinds(bs, chain[1..], key, i);
    }
  }

  lemma {:induction false} FollowMisses(bs: seq<Bucket>, chain: seq<nat>, key: nat)
    requires forall k :: 0 <= k < |chain| ==> chain[k] < |bs| && bs[chain[k]].key != key
    ensures Follow(bs, chain, key) == INVALID_IDX
  {
    if chain != [] { FollowMisses(bs, chain[1..], key); }
  }

  /** Looking a key up through its rebuilt chain finds bucket i exactly when bucket i is the
      live bucket of the plain list that carries the key; a dead bucket is never found. */
  lemma LookupAgreesWithList(bs: seq<Bucket>, size: nat, h: nat, key: nat)
    requires size > 0 && |bs| < INVALID_IDX && UniqueKeys(bs)
    requires forall i :: 0 <= i < |bs| && bs[i].key == key ==> bs[i].h == h
    ensures var found := Follow(bs, ChainSpec(bs, size, h % size, |bs|), key);
            && (forall i: nat :: i < |bs| ==> (found == i <==> bs[i].live && bs[i].key == key))
            && (found == INVALID_IDX <==> forall i :: 0 <= i < |bs| && bs[i].live ==> bs[i].key != key)
  {
    var chain := ChainSpec(bs, size, h % size, |bs|);
    forall i: nat ensures i in chain <==> i < |bs| && bs[i].live && bs[i].h % size == h % size {
      ChainMembers(bs, size, h % size, |bs|, i);
    }
    if i: nat :| i < |bs| && bs[i].live && bs[i].key == key {
      FollowFinds(bs, chain, key, i);
    } else {
      FollowMisses(bs, chain, key);
    }
  }

  // ---------------------------------------------------------------- the table

  class HashTable {
    var hashSize: nat          // -nTableMask
    var hash: array<nat>       // the hash part in front of arData
    var arData: array<Bucket>
    var nNumUsed: nat

    constructor (size: nat, buckets: array<Bucket>, used: nat)
      requires used <= buckets.Length
      ensures hashSize == size && arData == buckets && nNumUsed == used && fresh(hash)
    {
      hashSize := size;
      hash := new nat[size](_ => INVALID_IDX);
      arData := buckets;
      nNumUsed := used;
    }

    ghost predicate Valid()
      reads this, hash, arData
    {
      && nNumUsed <= arData.Length && nNumUsed < INVALID_IDX
      && hash.Length == hashSize && PowerOfTwo(hashSize) && 0 < hashSize < UINT32
    }

    /** Every slot heads the chain the plain bucket list prescribes. */
    ghost predicate Chained()
      reads this, hash, arData
    {
      Valid() &&
      forall slot :: 0 <= slot < hashSize ==>
        Linked(arData[..nNumUsed], hash[slot], ChainSpec(arData[..nNumUsed], hashSize, slot, nNumUsed))
    }

    /** The halving loop. */
    static method ShrinkHash(size: nat, used: nat) returns (hs: nat)
      requires PowerOfTwo(size) && used > 0 && size > 2 * used
      ensures hs == CompactSize(size, used)
      ensures PowerOfTwo(hs) && 2 * used < hs && hs / 4 <= used && hs <= size
    {
      hs := size;
      while hs / 4 > used
        invariant 2 * used < hs <= size && PowerOfTwo(hs)
        invariant CompactSize(hs, used) == CompactSize(size, used)
      {
        HalfPower(hs);
        hs := hs / 2;
      }
    }

    /** The compacting branch: shrink the hash part, copy the used buckets, rehash. */
    method CompactSparse()
      requires Valid() && Sparse(hashSize, nNumUsed)
      modifies this
      ensures Chained()
      ensures fresh(hash) && fresh(arData) && arData.Length == nNumUsed == old(nNumUsed)
      ensures hashSize == CompactSize(old(hashSize), nNumUsed)
      ensures PowerOfTwo(hashSize) && 2 * nNumUsed < hashSize && hashSize / 4 <= nNumUsed
      ensures forall i :: 0 <= i < nNumUsed ==> arData[i] == old(arData[i]).(next := arData[i].next)
    {
      var oldBuckets, used := arData[..nNumUsed], nNumUsed;
      var hs := ShrinkHash(hashSize, used);
      hashSize := hs;
      hash := new nat[hs](_ => INVALID_IDX);
      arData := new Bucket[used](i requires 0 <= i < |oldBuckets| => oldBuckets[i]);
      Rehash();
    }

    method Rehash()
      requires Valid() && arData.Length == nNumUsed
      requires forall slot :: 0 <= slot < hashSize ==> hash[slot] == INVALID_IDX
      modifies hash, arData
      ensures Chained()
      ensures forall i :: 0 <= i < nNumUsed ==> arData[i] == old(arData[i]).(next := arData[i].next)
    {
      hide BitOr, Linked, ChainSpec, PowerOfTwo;
      var idx, nTableMask := 0, UINT32 - hashSize;
      ghost var was, heads := arData[..], hash[..];
      ghost var bs: seq<Bucket> := arData[..];
      forall slot: nat { NoChainYet(bs, hashSize, slot); }
      while idx < nNumUsed
        invariant 0 <= idx <= nNumUsed
        invariant arData[..] == bs && hash[..] == heads
        invariant forall i :: 0 <= i < nNumUsed ==> SameEntry(bs[i], was[i])
        invariant forall slot :: 0 <= slot < hashSize ==> Linked(bs, heads[slot], ChainSpec(bs, hashSize, slot, idx))
      {
        var p := arData[idx];
        if p.live {
          var nIndex := BitOr(p.h % UINT32, nTableMask);
          MaskedIndex(p.h, hashSize);
          ghost var own := p.h % hashSize;
          arData[idx] := p.(next := hash[nIndex - nTableMask]);
          hash[nIndex - nTableMask] := idx;
          forall slot | 0 <= slot < hashSize { PrependLink(bs, hashSize, slot, idx, heads[slot], heads[own]); }
          bs, heads := bs[idx := p.(next := heads[own])], heads[own := idx];
        } else {
          forall slot | 0 <= slot < hashSize { DeadIsSkipped(bs, hashSize, slot, idx); }
        }
        idx := idx + 1;
      }
      assert arData[..nNumUsed] == bs;
    }

    /** Lookup over the rebuilt links: it stops, and it answers what the plain list says. */
    method Find(h: nat, key: nat) returns (i: nat)
      requires Chained() && UniqueKeys(arData[..nNumUsed])
      requires forall j :: 0 <= j < nNumUsed && arData[j].key == key ==> arData[j].h == h
      ensures forall j: nat :: j < nNumUsed ==> (i == j <==> arData[j].live && arData[j].key == key)
      ensures i == INVALID_IDX <==> forall j :: 0 <= j < nNumUsed && arData[j].live ==> arData[j].key != key
    {
      ghost var bs := arData[..nNumUsed];
      ghost var rest: seq<nat> := ChainSpec(bs, hashSize, h % hashSize, nNumUsed);
      ghost var answer := Follow(bs, rest, key);
      LookupAgreesWithList(bs, hashSize, h, key);
      MaskedIndex(h, hashSize);
      i := hash[BitOr(h % UINT32, UINT32 - hashSize) - (UINT32 - hashSize)];
      while i != INVALID_IDX && arData[i].key != key
        invariant Linked(bs, i, rest)
        invariant forall k :: 0 <= k < |rest| ==> rest[k] < nNumUsed
        invariant Follow(bs, rest, key) == answer
        decreases |rest|
      {
        rest := rest[1..];
        i := arData[i].next;
      }
    }
  }
}
