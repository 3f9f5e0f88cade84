/**
 The string pool of a serialized script, as it grows along the walk: which tag each string
 gets, and why no tag exceeds the size of the image.
 */
module StringPool {
  import opened Sequences
  import opened ZendGraph
  import opened Arena
  import opened Relocation

  /** tags is the translation table of the pass, keyed by address; entries holds the bytes
      copied to each pool offset. */
  datatype Pool = Pool(tags: map<nat, nat>, strSize: nat, entries: map<nat, seq<byte>>)

  const EMPTY_POOL := Pool(map[], 0, map[])

  /** n | 1 */
  function Tag(n: nat): (t: nat)
    ensures t % 2 == 1 && t - t % 2 == n - n % 2
  {
    if n % 2 == 0 then n + 1 else n
  }

  /** t & ~1 */
  function Untag(t: nat): nat {
    t - t % 2
  }

  /** zend_file_cache_serialize_interned for the string at p. */
  function Intern(pool: Pool, p: nat, raw: seq<byte>): Pool {
    if p in pool.tags then pool
    else Pool(pool.tags[p := Tag(pool.strSize)], pool.strSize + Aligned(|raw|), pool.entries[pool.strSize := raw])
  }

  predicate IsInternedString(img: Image, s: Slot) {
    && s in img.cells && img.cells[s].StrV? && Offset(img, img.cells[s].p) in img.objs
    && img.objs[Offset(img, img.cells[s].p)].AString? && img.objs[Offset(img, img.cells[s].p)].interned
  }

  function RawAt(img: Image, p: nat): seq<byte> {
    if Offset(img, p) in img.objs && img.objs[Offset(img, p)].AString? then img.objs[Offset(img, p)].raw else []
  }

  /** The pool once the slots of seen have been relocated, in this order. */
  function PoolOf(img: Image, seen: seq<Slot>): Pool {
    if seen == [] then EMPTY_POOL
    else
      var s, before := seen[|seen| - 1], PoolOf(img, seen[..|seen| - 1]);
      if IsInternedString(img, s) then Intern(before, img.cells[s].p, RawAt(img, img.cells[s].p)) else before
  }

  // ---------------------------------------------------------------- the pool is an index

  /** Slots the walk may meet: present, and not the key of a deleted bucket. */
  ghost predicate LiveSlot(img: Image, s: Slot) {
    s in img.cells && !Dead(img.cells, s)
  }

  ghost predicate AllLive(img: Image, seen: seq<Slot>) {
    forall s :: s in seen ==> LiveSlot(img, s)
  }

  /** The tag of p is odd and leads to the bytes of p inside the used part of the pool. */
  ghost predicate TagAt(img: Image, pool: Pool, p: nat)
    requires p in pool.tags
  {
    var t, raw := pool.tags[p], RawAt(img, p);
    && raw != [] && t % 2 == 1 && Untag(t) % 8 == 0 && Untag(t) + Aligned(|raw|) <= pool.strSize
    && Untag(t) in pool.entries && pool.entries[Untag(t)] == raw
  }

  ghost predicate RangesApart(img: Image, pool: Pool, p: nat, q: nat)
    requires p in pool.tags && q in pool.tags
  {
    var a, b := Untag(pool.tags[p]), Untag(pool.tags[q]);
    a + Aligned(|RawAt(img, p)|) <= b || b + Aligned(|RawAt(img, q)|) <= a
  }

  /** Every tag leads to its string, and different strings occupy different ranges. */
  ghost predicate Indexes(img: Image, pool: Pool) {
    && pool.strSize % 8 == 0
    && (forall p :: p in pool.tags ==> TagAt(img, pool, p))
    && (forall p, q :: p in pool.tags && q in pool.tags && p != q ==> RangesApart(img, pool, p, q))
  }

  ghost predicate StringsNonempty(img: Image) {
    forall o :: o in img.objs && img.objs[o].AString? ==> img.objs[o].raw != []
  }

  /** The interned strings among seen. */
  ghost predicate TagsCover(img: Image, seen: seq<Slot>, tags: map<nat, nat>) {
    && (forall s :: s in seen && IsInternedString(img, s) ==> img.cells[s].p in tags)
    && (forall p :: p in tags ==> exists s :: s in seen && IsInternedString(img, s) && img.cells[s].p == p)
  }

  lemma {:induction false} PoolIndexes(img: Image, seen: seq<Slot>)
    requires StringsNonempty(img)
    ensures Indexes(img, PoolOf(img, seen))
  {
    if seen != [] {
      var s := seen[|seen| - 1];
      PoolIndexes(img, seen[..|seen| - 1]);
      if IsInternedString(img, s) { InternIndexes(img, PoolOf(img, seen[..|seen| - 1]), img.cells[s].p); }
    }
  }

  lemma InternIndexes(img: Image, pool: Pool, p: nat)
    requires Indexes(img, pool) && RawAt(img, p) != []
    ensures Indexes(img, Intern(pool, p, RawAt(img, p)))
  {
    hide RawAt;
    if p !in pool.tags {
      var after := Intern(pool, p, RawAt(img, p));
      InternTags(img, pool, p);
      hide TagAt, Tag, Untag;
      forall q, r | q in after.tags && r in after.tags && q != r ensures RangesApart(img, after, q, r) {
        if q != p && r != p { assert RangesApart(img, pool, q, r); }
        else { NewRangeApart(img, pool, p, if q == p then r else q); }
      }
    }
  }

  lemma TagTwice(n: nat)
    requires n % 8 == 0
    ensures Untag(Tag(n)) == n && Tag(n) % 2 == 1
  {
    assert n == 2 * (4 * (n / 8));
  }

  lemma InternTags(img: Image, pool: Pool, p: nat)
    requires Indexes(img, pool) && RawAt(img, p) != [] && p !in pool.tags
    ensures var after := Intern(pool, p, RawAt(img, p));
            after.strSize % 8 == 0 && forall q :: q in after.tags ==> TagAt(img, after, q)
  {
    hide RawAt, RangesApart, Tag, Untag;
    TagTwice(pool.strSize);
    var after := Intern(pool, p, RawAt(img, p));
    forall q | q in after.tags ensures TagAt(img, after, q) {
      if q != p { assert TagAt(img, pool, q); }
    }
  }

  lemma NewRangeApart(img: Image, pool: Pool, p: nat, q: nat)
    requires Indexes(img, pool) && p !in pool.tags && q in pool.tags && RawAt(img, p) != []
    ensures var after := Intern(pool, p, RawAt(img, p)); RangesApart(img, after, p, q) && RangesApart(img, after, q, p)
  {
    assert TagAt(img, pool, q);
  }

  lemma {:induction false} PoolCovers(img: Image, seen: seq<Slot>)
    ensures TagsCover(img, seen, PoolOf(img, seen).tags)
  {
    if seen != [] {
      var before, s := seen[..|seen| - 1], seen[|seen| - 1];
      PoolCovers(img, before);
      assert forall u :: u in seen <==> u in before || u == s;
    }
  }

  // ---------------------------------------------------------------- the bound

  /** Distinct strings pooled so far, by offset. */
  function Pooled(img: Image, seen: seq<Slot>): seq<nat> {
    if seen == [] then []
    else
      var s, before := seen[|seen| - 1], seen[..|seen| - 1];
      if IsInternedString(img, s) && img.cells[s].p !in PoolOf(img, before).tags
      then Pooled(img, before) + [Offset(img, img.cells[s].p)] else Pooled(img, before)
  }

  ghost function ExtentSum(objs: map<nat, AObj>, list: seq<nat>): nat
    requires forall o :: o in list ==> o in objs
  {
    if list == [] then 0 else ExtentSum(objs, list[..|list| - 1]) + Extent(objs[list[|list| - 1]])
  }

  lemma {:induction false} ExtentSumWithout(objs: map<nat, AObj>, list: seq<nat>, k: nat)
    requires k < |list| && forall o :: o in list ==> o in objs
    ensures ExtentSum(objs, list) == ExtentSum(objs, list[..k] + list[k + 1..]) + Extent(objs[list[k]])
  {
    var last := |list| - 1;
    if k == last {
      assert list[..k] + list[k + 1..] == list[..last];
    } else {
      ExtentSumWithout(objs, list[..last], k);
      var rest := list[..k] + list[k + 1..];
      assert list[..last][..k] + list[..last][k + 1..] == rest[..|rest| - 1];
    }
  }

  ghost function MaxIndex(list: seq<nat>): (k: nat)
    requires list != []
    ensures k < |list| && forall i :: 0 <= i < |list| ==> list[i] <= list[k]
  {
    if |list| == 1 then 0
    else var k := MaxIndex(list[..|list| - 1]); if list[k] < list[|list| - 1] then |list| - 1 else k
  }

  /** The strings in list lie between lo and hi and do not overlap. */
  ghost predicate Fits(objs: map<nat, AObj>, lo: nat, hi: nat, list: seq<nat>) {
    && lo <= hi && NoRepeat(list)
    && (forall o :: o in list ==> o in objs && objs[o].AString? && lo <= o && o + Extent(objs[o]) <= hi)
    && (forall a, b :: a in list && b in list && a != b ==> Apart(objs, a, b))
  }

  /** Without the last one in memory, the others end where it begins. */
  lemma FitsBelow(objs: map<nat, AObj>, lo: nat, hi: nat, list: seq<nat>, k: nat)
    requires Fits(objs, lo, hi, list) && k < |list| && forall i :: 0 <= i < |list| ==> list[i] <= list[k]
    ensures Fits(objs, lo, list[k], list[..k] + list[k + 1..])
  {
    var m, rest := list[k], list[..k] + list[k + 1..];
    assert list[k] in list;
    forall i, j | 0 <= i < j < |rest| ensures rest[i] != rest[j] {
      assert rest[i] == list[if i < k then i else i + 1] && rest[j] == list[if j < k then j else j + 1];
    }
    forall o | o in rest ensures o in list && o + Extent(objs[o]) <= m {
      var i :| 0 <= i < |rest| && rest[i] == o;
      assert o == list[if i < k then i else i + 1];
      assert o < m && Apart(objs, o, m);
    }
  }

  /** Disjoint strings between lo and hi cannot take more than hi - lo bytes. */
  lemma {:induction false} DisjointStringsFit(objs: map<nat, AObj>, lo: nat, hi: nat, list: seq<nat>)
    requires Fits(objs, lo, hi, list)
    ensures ExtentSum(objs, list) <= hi - lo
    decreases |list|
  {
    if list != [] {
      var k := MaxIndex(list);
      assert list[k] in list;
      ExtentSumWithout(objs, list, k);
      FitsBelow(objs, lo, hi, list, k);
      hide Fits, Extent;
      DisjointStringsFit(objs, lo, list[k], list[..k] + list[k + 1..]);
      LastFits(objs, lo, hi, list, k);
    }
  }

  lemma LastFits(objs: map<nat, AObj>, lo: nat, hi: nat, list: seq<nat>, k: nat)
    requires Fits(objs, lo, hi, list) && k < |list|
    ensures list[k] in objs && lo <= list[k] && list[k] + Extent(objs[list[k]]) <= hi
  {
    assert list[k] in list;
  }

  ghost predicate PooledAre(img: Image, list: seq<nat>, pool: Pool) {
    && (forall o :: o in list ==> o in img.objs && img.objs[o].AString?)
    && (forall o :: o in list <==> o + img.base in pool.tags)
    && NoRepeat(list) && ExtentSum(img.objs, list) == pool.strSize
  }

  lemma {:induction false} PooledMeans(img: Image, seen: seq<Slot>)
    requires forall s :: s in seen && IsInternedString(img, s) ==> img.cells[s].p >= img.base
    ensures PooledAre(img, Pooled(img, seen), PoolOf(img, seen))
  {
    if seen != [] {
      var before, s := seen[..|seen| - 1], seen[|seen| - 1];
      assert seen == before + [s];
      PooledMeans(img, before);
      hide PooledAre, Extent, RawAt, ExtentSum;
      if IsInternedString(img, s) && img.cells[s].p !in PoolOf(img, before).tags {
        PooledGrows(img, Pooled(img, before), PoolOf(img, before), img.cells[s].p);
      }
    }
  }

  lemma PooledGrows(img: Image, list: seq<nat>, pool: Pool, p: nat)
    requires PooledAre(img, list, pool) && p >= img.base && p !in pool.tags
    requires Offset(img, p) in img.objs && img.objs[Offset(img, p)].AString?
    ensures PooledAre(img, list + [Offset(img, p)], Intern(pool, p, RawAt(img, p)))
  {
    var more := list + [Offset(img, p)];
    assert more[..|more| - 1] == list;
    assert Offset(img, p) !in list;
  }

  lemma ImageStrings(img: Image, header: nat)
    requires WellFormed(img, header)
    ensures StringsNonempty(img)
  {
    forall o | o in img.objs && img.objs[o].AString? ensures img.objs[o].raw != [] {
      assert Extent(img.objs[o]) > 0;
    }
  }

  lemma LivePointer(img: Image, header: nat, s: Slot)
    requires WellFormed(img, header) && LiveSlot(img, s)
    ensures PointsRight(img.base, img.objs, s, img.cells[s])
  {
  }

  lemma PooledBasics(img: Image, list: seq<nat>, pool: Pool)
    requires PooledAre(img, list, pool)
    ensures NoRepeat(list) && (forall o :: o in list ==> o in img.objs && img.objs[o].AString?)
  {
  }

  lemma PooledSum(img: Image, list: seq<nat>, pool: Pool)
    requires PooledAre(img, list, pool)
    ensures (forall o :: o in list ==> o in img.objs) && ExtentSum(img.objs, list) == pool.strSize
  {
  }

  lemma StringsFit(objs: map<nat, AObj>, lo: nat, hi: nat, list: seq<nat>)
    requires LaidOut(objs, lo, hi) && lo <= hi && NoRepeat(list)
    requires forall o :: o in list ==> o in objs && objs[o].AString?
    ensures Fits(objs, lo, hi, list)
  {
    hide Extent;
  }

  /** Every pooled string was stored in the image at the same aligned size, so the pool stays
      below the image: each tag passes the test that tells offsets from addresses. */
  lemma PoolBelowImage(img: Image, header: nat, seen: seq<Slot>)
    requires WellFormed(img, header) && header > 0 && AllLive(img, seen)
    ensures PoolOf(img, seen).strSize + header <= img.size
    ensures forall p :: p in PoolOf(img, seen).tags ==> 0 < PoolOf(img, seen).tags[p] <= img.size
  {
    hide WellFormed, PointsRight, LaidOut, Fits, PooledAre, Indexes;
    var list := Pooled(img, seen);
    ImageLaidOut(img, header);
    forall s | s in seen && IsInternedString(img, s) ensures img.cells[s].p >= img.base {
      LivePointer(img, header, s);
      StringAddress(img, header, s);
    }
    PooledMeans(img, seen);
    PooledBasics(img, list, PoolOf(img, seen));
    PooledSum(img, list, PoolOf(img, seen));
    StringsFit(img.objs, header, img.size, list);
    DisjointStringsFit(img.objs, header, img.size, list);
    ImageStrings(img, header);
    PoolIndexes(img, seen);
    TagsSmall(img, header, PoolOf(img, seen));
  }

  lemma ImageLaidOut(img: Image, header: nat)
    requires WellFormed(img, header)
    ensures LaidOut(img.objs, header, img.size) && header <= img.size
  {
  }

  lemma StringAddress(img: Image, header: nat, s: Slot)
    requires IsInternedString(img, s) && PointsRight(img.base, img.objs, s, img.cells[s])
    requires LaidOut(img.objs, header, img.size) && header > 0
    ensures img.cells[s].p >= img.base
  {
  }

  lemma TagsSmall(img: Image, header: nat, pool: Pool)
    requires Indexes(img, pool) && pool.strSize + header <= img.size && header > 0
    ensures forall p :: p in pool.tags ==> 0 < pool.tags[p] <= img.size
  {
    forall p | p in pool.tags ensures 0 < pool.tags[p] <= img.size {
      assert TagAt(img, pool, p);
    }
  }
}
