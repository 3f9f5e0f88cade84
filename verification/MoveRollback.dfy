/**
 What a compilation does to the global function, class and constant tables: on success the entries
 the file added move to the script, on failure everything above the recorded mark is deleted.
 */
module MoveRollback {
  import opened Sequences

  type Key = string

  /** ptr is the zend_function, zend_class_entry or zend_constant of the bucket. */
  datatype Bucket = Undef | Live(key: Key, ptr: nat)

  const MAX_TABLE: nat := 0x4000_0000

  // ---------------------------------------------------------------- contents

  /** The live buckets in order. */
  function Entries(b: seq<Bucket>): seq<Bucket> {
    if b == [] then [] else
      Entries(b[..|b| - 1]) + (if b[|b| - 1].Live? then [b[|b| - 1]] else [])
  }

  /** The live buckets that belong (or, with mine false, do not belong) to the compiled file. */
  function Select(b: seq<Bucket>, owned: nat -> bool, mine: bool): seq<Bucket> {
    if b == [] then [] else
      Select(b[..|b| - 1], owned, mine)
      + (if b[|b| - 1].Live? && owned(b[|b| - 1].ptr) == mine then [b[|b| - 1]] else [])
  }

  lemma {:induction false} EntriesAppend(a: seq<Bucket>, b: seq<Bucket>)
    ensures Entries(a + b) == Entries(a) + Entries(b)
    decreases b
  {
    if b == [] {
      assert a + b == a;
    } else {
      EntriesAppend(a, b[..|b| - 1]);
      assert (a + b)[..|a + b| - 1] == a + b[..|b| - 1];
    }
  }

  lemma {:induction false} EntriesUndef(b: seq<Bucket>)
    requires forall x <- b :: x.Undef?
    ensures Entries(b) == []
  {
    if b != [] {
      assert b[|b| - 1] in b;
      EntriesUndef(b[..|b| - 1]);
    }
  }

  /** The two selections split the entries. */
  lemma {:induction false} SelectSplits(b: seq<Bucket>, owned: nat -> bool)
    ensures multiset(Select(b, owned, true)) + multiset(Select(b, owned, false)) == multiset(Entries(b))
  {
    if b != [] { SelectSplits(b[..|b| - 1], owned); }
  }

  /** The positions of the selected buckets, in order: exactly the live ones of the wanted owner. */
  lemma {:induction false} SelectAt(b: seq<Bucket>, owned: nat -> bool, mine: bool) returns (idx: seq<nat>)
    ensures |idx| == |Select(b, owned, mine)|
    ensures forall i: nat | i < |idx| :: idx[i] < |b| && Select(b, owned, mine)[i] == b[idx[i]]
    ensures forall i: nat, j: nat | i < j < |idx| :: idx[i] < idx[j]
    ensures forall k: nat | k < |b| :: k in idx <==> b[k].Live? && owned(b[k].ptr) == mine
  {
    SelectLast(b, owned, mine);
    hide Select;
    idx := [];
    if b != [] {
      var n := |b| - 1;
      var chosen := b[n].Live? && owned(b[n].ptr) == mine;
      var before := SelectAt(b[..n], owned, mine);
      idx := if chosen then before + [n] else before;
      forall i: nat | i < |before| ensures before[i] < n && idx[i] == before[i] {}
      forall k: nat | k < n ensures k in idx <==> b[k].Live? && owned(b[k].ptr) == mine { assert b[..n][k] == b[k]; }
      assert n in idx <==> chosen;
    }
  }

  lemma SelectLast(b: seq<Bucket>, owned: nat -> bool, mine: bool)
    ensures b == [] ==> Select(b, owned, mine) == []
    ensures b != [] ==> var n := |b| - 1;
              Select(b, owned, mine) == Select(b[..n], owned, mine)
                                        + if b[n].Live? && owned(b[n].ptr) == mine then [b[n]] else []
  {
  }

  /** The positions of the entries, in order: exactly the live buckets. */
  lemma {:induction false} EntriesAre(b: seq<Bucket>) returns (idx: seq<nat>)
    ensures |idx| == |Entries(b)|
    ensures forall i: nat | i < |idx| :: idx[i] < |b| && Entries(b)[i] == b[idx[i]]
    ensures forall i: nat, j: nat | i < j < |idx| :: idx[i] < idx[j]
    ensures forall k: nat | k < |b| :: k in idx <==> b[k].Live?
  {
    EntriesLast(b);
    hide Entries;
    idx := [];
    if b != [] {
      var n := |b| - 1;
      var before := EntriesAre(b[..n]);
      idx := if b[n].Live? then before + [n] else before;
      forall i: nat | i < |before| ensures before[i] < n && idx[i] == before[i] {}
      forall k: nat | k < n ensures k in idx <==> b[k].Live? { assert b[..n][k] == b[k]; }
      assert n in idx <==> b[n].Live?;
    }
  }

  lemma EntriesLast(b: seq<Bucket>)
    ensures b == [] ==> Entries(b) == []
    ensures b != [] ==> var n := |b| - 1;
              Entries(b) == Entries(b[..n]) + if b[n].Live? then [b[n]] else []
  {
  }

  /** b with the owned entries from position `lo` up to `hi` deleted. */
  function Cleared(b: seq<Bucket>, owned: nat -> bool, lo: nat, hi: nat): (r: seq<Bucket>)
    ensures |r| == |b|
  {
    seq(|b|, i requires 0 <= i < |b| => if lo <= i < hi && b[i].Live? && owned(b[i].ptr) then Undef else b[i])
  }

  lemma {:induction false} ClearedEntries(b: seq<Bucket>, owned: nat -> bool, lo: nat, hi: nat)
    requires lo <= hi <= |b|
    ensures Entries(Cleared(b, owned, lo, hi)[..hi]) == Entries(b[..lo]) + Select(b[lo..hi], owned, false)
    decreases hi
  {
    if lo == hi {
      assert Cleared(b, owned, lo, hi)[..hi] == b[..lo];
    } else {
      var n := hi - 1;
      ClearedEntries(b, owned, lo, n);
      var c := Cleared(b, owned, lo, hi)[..hi];
      assert c[..n] == Cleared(b, owned, lo, n)[..n];
      assert c[n] == if b[n].Live? && owned(b[n].ptr) then Undef else b[n];
      var part, last := b[lo..hi], if b[n].Live? && !owned(b[n].ptr) then [b[n]] else [];
      hide Cleared;
      SliceSplits(b, lo, hi);
      assert Select(part, owned, false) == Select(b[lo..n], owned, false) + last;
      assert Entries(c) == Entries(c[..n]) + last;
      ConcatAssociates(Entries(b[..lo]), Select(b[lo..n], owned, false), last);
    }
  }

  lemma ClearedStep(b: seq<Bucket>, owned: nat -> bool, lo: nat, p: nat)
    requires lo <= p < |b|
    ensures Cleared(b, owned, lo, p)[p] == b[p] && Cleared(b, owned, lo, lo) == b
    ensures Cleared(b, owned, lo, p + 1)
         == if b[p].Live? && owned(b[p].ptr) then Cleared(b, owned, lo, p)[p := Undef] else Cleared(b, owned, lo, p)
  {
  }

  /** Splitting the entries e into f and t loses none. */
  lemma NothingLost(a: seq<Bucket>, e: seq<Bucket>, f: seq<Bucket>, t: seq<Bucket>, d: seq<Bucket>)
    requires multiset(t) + multiset(f) == multiset(e)
    ensures multiset(a + f) + multiset(d + t) == multiset(a + e) + multiset(d)
  {
  }

  lemma NothingMoves(b: seq<Bucket>, owned: nat -> bool, lo: nat)
    requires lo <= |b|
    ensures Cleared(b, owned, lo, lo) == b && Select(b[lo..lo], owned, true) == Select(b[lo..lo], owned, false) == []
  {
  }

  lemma SelectStep(b: seq<Bucket>, owned: nat -> bool, lo: nat, p: nat)
    requires lo <= p < |b|
    ensures Select(b[lo..p + 1], owned, true)
         == Select(b[lo..p], owned, true) + (if b[p].Live? && owned(b[p].ptr) then [b[p]] else [])
  {
    assert b[lo..p + 1][..p - lo] == b[lo..p];
  }

  lemma GapHasNoEntries(b: seq<Bucket>, m: nat, n: nat)
    requires m <= n <= |b| && forall i: nat | m <= i < n :: b[i].Undef?
    ensures Entries(b[..n]) == Entries(b[..m])
  {
    assert b[..n] == b[..m] + b[m..n];
    EntriesAppend(b[..m], b[m..n]);
    EntriesUndef(b[m..n]);
  }

  lemma DeleteEntry(b: seq<Bucket>, i: nat, n: nat)
    requires i < n <= |b| && b[i].Live?
    ensures |Entries(b[i := Undef][..n])| == |Entries(b[..n])| - 1
  {
    assert b[..n] == b[..i] + ([b[i]] + b[i + 1..n]);
    assert b[i := Undef][..n] == b[..i] + ([Undef] + b[i + 1..n]);
    EntriesAppend(b[..i], [b[i]] + b[i + 1..n]);
    EntriesAppend(b[..i], [Undef] + b[i + 1..n]);
    EntriesAppend([b[i]], b[i + 1..n]);
    EntriesAppend([Undef], b[i + 1..n]);
  }

  // ---------------------------------------------------------------- the table

  class EntryTable {
    var arData: seq<Bucket>
    var nNumUsed: nat
    var nNumOfElements: nat
    /** pDestructor is set; then deleting an entry destroys its value. */
    var destructor: bool
    ghost var destroyed: seq<Bucket>

    constructor ()
      ensures Valid() && Contents() == [] && nNumUsed == 0
    {
      arData, nNumUsed, nNumOfElements, destructor, destroyed := [], 0, 0, true, [];
    }

    ghost predicate Valid()
      reads this
    {
      nNumUsed <= |arData| && nNumUsed <= MAX_TABLE && nNumOfElements == |Entries(arData[..nNumUsed])|
    }

    ghost function Contents(): seq<Bucket>
      requires nNumUsed <= |arData|
      reads this
    {
      Entries(arData[..nNumUsed])
    }

    /** _zend_hash_append_ptr */
    method Append(key: Key, ptr: nat)
      requires Valid() && nNumUsed < MAX_TABLE
      modifies this
      ensures Valid() && Contents() == old(Contents()) + [Live(key, ptr)]
      ensures nNumUsed == old(nNumUsed) + 1 && arData[..nNumUsed] == old(arData[..nNumUsed]) + [Live(key, ptr)]
      ensures destructor == old(destructor) && destroyed == old(destroyed)
    {
      arData := arData[..nNumUsed] + [Live(key, ptr)];
      assert arData[..nNumUsed + 1][..nNumUsed] == old(arData[..nNumUsed]);
      nNumUsed := nNumUsed + 1;
      nNumOfElements := nNumOfElements + 1;
    }

    /** zend_hash_del_bucket: deleting the last bucket also drops the dead ones before it. */
    method DelBucket(i: nat)
      requires Valid() && i < nNumUsed && arData[i].Live?
      modifies this
      ensures Valid() && arData == old(arData)[i := Undef]
      ensures nNumUsed <= old(nNumUsed) && (i + 1 < old(nNumUsed) ==> nNumUsed == old(nNumUsed))
      ensures i + 1 == old(nNumUsed) ==> nNumUsed <= i && (nNumUsed > 0 ==> arData[nNumUsed - 1].Live?)
      ensures forall j | nNumUsed <= j < old(nNumUsed) :: arData[j].Undef?
      ensures destructor == old(destructor)
      ensures destroyed == if destructor then old(destroyed) + [old(arData[i])] else old(destroyed)
    {
      DeleteEntry(arData, i, nNumUsed);
      if destructor {
        destroyed := destroyed + [arData[i]];
      }
      arData := arData[i := Undef];
      nNumOfElements := nNumOfElements - 1;
      if nNumUsed - 1 == i {
        var n := nNumUsed - 1;
        while n > 0 && arData[n - 1].Undef?
          invariant 0 <= n < nNumUsed
          invariant forall j | n <= j < nNumUsed :: arData[j].Undef?
        {
          n := n - 1;
        }
        GapHasNoEntries(arData, n, nNumUsed);
        nNumUsed := n;
      }
    }

    /**
     The move functions: of the last `count` buckets, the owned ones go to dst in order, the others
     stay; nothing is destroyed.
     */
    method MoveUserEntries(count: nat, dst: EntryTable, owned: nat -> bool)
      requires Valid() && dst.Valid() && dst != this && dst.nNumUsed + nNumUsed <= MAX_TABLE
      modifies this, dst
      ensures Valid() && dst.Valid()
      ensures var lo := if count <= old(nNumUsed) then old(nNumUsed) - count else old(nNumUsed);
              var added := old(arData)[lo..old(nNumUsed)];
              && arData == Cleared(old(arData), owned, lo, old(nNumUsed))
              && Contents() == Entries(old(arData)[..lo]) + Select(added, owned, false)
              && dst.Contents() == old(dst.Contents()) + Select(added, owned, true)
      ensures nNumUsed <= old(nNumUsed) && destructor == old(destructor) && destroyed == old(destroyed)
    {
      hide Cleared, Select, Entries;
      var n := if nNumUsed < count then 0 else count;
      ghost var was, lo, held := arData, nNumUsed - n, dst.Contents();
      ClearedEntries(was, owned, lo, nNumUsed);
      NothingMoves(was, owned, lo);
      if n == 0 {
        return;
      }
      var origDtor := destructor;
      destructor := false;
      var end := nNumUsed;
      var p := end - n;
      while p != end
        invariant lo <= p <= end <= |arData| && |was| == |arData|
        invariant Valid() && dst.Valid() && !destructor && destroyed == old(destroyed)
        invariant nNumUsed <= end && forall j | nNumUsed <= j < end :: arData[j].Undef?
        invariant arData == Cleared(was, owned, lo, p)
        invariant dst.Contents() == held + Select(was[lo..p], owned, true)
        invariant dst.nNumUsed + (end - p) <= MAX_TABLE
        decreases end - p
      {
        SelectStep(was, owned, lo, p);
        ClearedStep(was, owned, lo, p);
        var b := arData[p];
        if b.Live? && owned(b.ptr) {
          dst.Append(b.key, b.ptr);
          DelBucket(p);
        }
        p := p + 1;
      }
      GapHasNoEntries(arData, nNumUsed, end);
      destructor := origDtor;
    }

    /** The move of what the compiled file added: count is a uint32_t, orig the mark taken before. */
    method MoveAdded(orig: nat, dst: EntryTable, owned: nat -> bool)
      requires Valid() && dst.Valid() && dst != this && dst.nNumUsed + nNumUsed <= MAX_TABLE && orig <= MAX_TABLE
      modifies this, dst
      ensures Valid() && dst.Valid()
      ensures multiset(Contents()) + multiset(dst.Contents()) == old(multiset(Contents()) + multiset(dst.Contents()))
      ensures var lo := if orig <= old(nNumUsed) then orig else old(nNumUsed);
              var added := old(arData)[lo..old(nNumUsed)];
              && Contents() == Entries(old(arData)[..lo]) + Select(added, owned, false)
              && dst.Contents() == old(dst.Contents()) + Select(added, owned, true)
      ensures destructor == old(destructor) && destroyed == old(destroyed)
    {
      hide Entries, Select, Cleared;
      var count := (nNumUsed - orig) % 0x1_0000_0000;
      ghost var lo := if orig <= nNumUsed then orig else nNumUsed;
      ghost var below, added, held := Entries(arData[..lo]), arData[lo..nNumUsed], dst.Contents();
      SelectSplits(added, owned);
      NothingLost(below, Entries(added), Select(added, owned, false), Select(added, owned, true), held);
      EntriesAppend(arData[..lo], arData[lo..nNumUsed]);
      assert arData[..lo] + arData[lo..nNumUsed] == arData[..nNumUsed];
      NothingMoves(arData, owned, nNumUsed);
      assert lo == if count <= nNumUsed then nNumUsed - count else nNumUsed;
      MoveUserEntries(count, dst, owned);
      assert Contents() == below + Select(added, owned, false) && dst.Contents() == held + Select(added, owned, true);
    }

    /** Deletes every bucket from the end down to the mark. */
    method DeleteDown(orig: nat)
      requires Valid() && orig < nNumUsed
      modifies this
      ensures Valid() && nNumUsed <= old(nNumUsed) <= |arData| && destructor == old(destructor)
      ensures arData[..orig] == old(arData[..orig])
      ensures forall j | orig <= j < old(nNumUsed) :: arData[j].Undef?
      ensures forall j | nNumUsed <= j < old(nNumUsed) :: arData[j].Undef?
      ensures destroyed == old(destroyed) + if destructor
                then Reversed(Entries(old(arData)[orig..old(nNumUsed)])) else []
    {
      hide Entries, Reversed;
      ghost var was, end, lost := arData, nNumUsed, destroyed;
      var i := nNumUsed;
      NothingToDelete(was, end);
      while i > orig
        invariant orig <= i <= end <= |arData| && |was| == |arData|
        invariant Valid() && destructor == old(destructor)
        invariant nNumUsed <= end && forall j | nNumUsed <= j < end :: arData[j].Undef?
        invariant (forall j | 0 <= j < i :: arData[j] == was[j]) && forall j | i <= j < end :: arData[j].Undef?
        invariant destroyed == lost + if destructor then Reversed(Entries(was[i..end])) else []
      {
        i := i - 1;
        ReversedStep(was, i, end);
        if arData[i].Live? {
          DelBucket(i);
        }
      }
    }

    /** The cleanup after a failed compilation, down to the mark taken before it. */
    method Rollback(orig: nat)
      requires Valid()
      modifies this
      ensures Valid()
      ensures old(nNumUsed) <= orig ==>
                arData == old(arData) && nNumUsed == old(nNumUsed) && destroyed == old(destroyed)
      ensures old(nNumUsed) > orig ==>
                && nNumUsed == orig && arData[..orig] == old(arData[..orig])
                && destroyed == old(destroyed) + if destructor
                     then Reversed(Entries(old(arData)[orig..old(nNumUsed)])) else []
      ensures destructor == old(destructor)
    {
      hide Entries, Reversed;
      if nNumUsed > orig {
        DeleteDown(orig);
        if nNumUsed <= orig {
          GapHasNoEntries(arData, nNumUsed, orig);
        } else {
          GapHasNoEntries(arData, orig, nNumUsed);
        }
        nNumUsed := orig;
      }
    }

    /** A failed compilation leaves the table as it was, and destroys what it added, last first. */
    method FailedCompile(added: seq<Bucket>)
      requires Valid() && nNumUsed + |added| <= MAX_TABLE && forall b <- added :: b.Live?
      modifies this
      ensures Valid() && nNumUsed == old(nNumUsed) && arData[..nNumUsed] == old(arData[..nNumUsed])
      ensures old(destructor) ==> destroyed == old(destroyed) + Reversed(added)
    {
      hide Entries, Reversed;
      var orig := nNumUsed;
      ghost var before := arData[..orig];
      for k := 0 to |added|
        invariant Valid() && nNumUsed == orig + k && arData[..orig] == before
        invariant arData[..nNumUsed][orig..] == added[..k]
        invariant destructor == old(destructor) && destroyed == old(destroyed)
      {
        ghost var now := arData[..nNumUsed];
        Append(added[k].key, added[k].ptr);
        OneMore(now, orig, added, k);
        assert arData[..nNumUsed] == now + [added[k]] && arData[..orig] == arData[..nNumUsed][..orig];
      }
      AllLive(added);
      assert added[..|added|] == added && arData[orig..nNumUsed] == added;
      NothingReversed();
      Rollback(orig);
    }
  }

  lemma OneMore(now: seq<Bucket>, orig: nat, added: seq<Bucket>, k: nat)
    requires orig <= |now| && k < |added| && now[orig..] == added[..k]
    ensures (now + [added[k]])[orig..] == added[..k + 1] && (now + [added[k]])[..orig] == now[..orig]
  {
  }

  function Reversed(s: seq<Bucket>): seq<Bucket> {
    if s == [] then [] else Reversed(s[1..]) + [s[0]]
  }

  lemma {:induction false} ReversedAt(s: seq<Bucket>, k: nat)
    requires k < |s|
    ensures |Reversed(s)| == |s| && Reversed(s)[k] == s[|s| - 1 - k]
  {
    if |s| > 1 { ReversedAt(s[1..], if k < |s| - 1 then k else 0); }
  }

  lemma NothingReversed()
    ensures Reversed([]) == []
  {
  }

  lemma NothingToDelete(b: seq<Bucket>, n: nat)
    requires n <= |b|
    ensures Reversed(Entries(b[n..n])) == []
  {
  }

  lemma ReversedStep(b: seq<Bucket>, i: nat, n: nat)
    requires i < n <= |b|
    ensures Reversed(Entries(b[i..n])) == Reversed(Entries(b[i + 1..n])) + if b[i].Live? then [b[i]] else []
  {
    assert b[i..n] == [b[i]] + b[i + 1..n];
    EntriesAppend([b[i]], b[i + 1..n]);
    var rest := Entries(b[i + 1..n]);
    if b[i].Live? {
      assert ([b[i]] + rest)[1..] == rest;
    } else {
      assert [] + rest == rest;
    }
  }

  lemma {:induction false} AllLive(b: seq<Bucket>)
    requires forall x <- b :: x.Live?
    ensures Entries(b) == b
  {
    if b != [] {
      AllLive(b[..|b| - 1]);
      assert b == b[..|b| - 1] + [b[|b| - 1]];
    }
  }
}
