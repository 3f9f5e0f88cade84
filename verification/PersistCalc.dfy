/** The measuring pass over values, as zend_persist_zval_calc runs it. */
module PersistCalc {
  import opened MachineWords
  import opened ZendGraph
  import HashCompact
  import opened SizeAccounting

  /** Walking work from log0 leads to log1, and the size grew by what was logged, plus the
      bytes of the nodes in work, which are not logged themselves. */
  ghost predicate Counted(h: Heap, log0: seq<nat>, size0: nat, log1: seq<nat>, size1: nat, work: seq<Item>,
                          nodes: nat) {
    && HeapOk(h) && WorkOk(h, work)
    && (forall p :: p in log0 ==> p in h)
    && log1 == Walk(h, Measure, log0, work)
    && size1 + LogBytes(Measure, h, log0) == size0 + LogBytes(Measure, h, log1) + nodes
  }

  lemma CountedNothing(h: Heap, log: seq<nat>, size: nat)
    requires HeapOk(h) && forall p :: p in log ==> p in h
    ensures Counted(h, log, size, log, size, [], 0)
  {
  }

  lemma CountedThen(h: Heap, log0: seq<nat>, size0: nat, log1: seq<nat>, size1: nat, a: seq<Item>, x: nat,
                    log2: seq<nat>, size2: nat, b: seq<Item>, y: nat)
    requires Counted(h, log0, size0, log1, size1, a, x) && Counted(h, log1, size1, log2, size2, b, y)
    ensures Counted(h, log0, size0, log2, size2, a + b, x + y)
    ensures Unlogged(h, log2) <= Unlogged(h, log1)
  {
    WalkAppend(h, Measure, log0, a, b);
    UnloggedShrinks(h, log1, log2);
  }

  /** From the items a single item uncovers back to the item. */
  lemma CountedStep(h: Heap, log0: seq<nat>, size0: nat, it: Item, log1: seq<nat>, size1: nat, nodes: nat)
    requires HeapOk(h) && ItemOk(h, it) && forall p :: p in log0 ==> p in h
    requires var (log', more) := Step(h, Measure, log0, it);
             && (forall p :: p in log' ==> p in h)
             && ((log' == log0 && Counted(h, log0, size0, log1, size1, more, nodes))
                 || (|log'| > |log0| && Counted(h, log', size0 + ObjBytes(Measure, h[log'[|log0|]]),
                                                log1, size1, more, nodes)))
    ensures Counted(h, log0, size0, log1, size1, [it], nodes)
  {
    WalkOne(h, Measure, log0, it);
    var (log', more) := Step(h, Measure, log0, it);
    if |log'| > |log0| { assert log'[..|log0|] == log0; }
  }

  class ScriptSize {
    const h: Heap
    var size: nat          // script->size
    var dataSize: nat      // opkit_data_size
    var miscSize: nat      // opkit_misc_size
    var xlat: set<nat>
    ghost var log: seq<nat>

    /** Strings and arrays met so far are the keys of the translation table; expressions are
        logged but never registered. */
    ghost predicate Valid()
      reads this
    {
      && HeapOk(h)
      && (forall p :: p in log ==> p in h)
      && xlat == (set p | p in log && !h[p].RefObj?)
      && size == dataSize + miscSize
    }

    constructor (heap: Heap)
      requires HeapOk(heap)
      ensures h == heap && Valid() && size == 0 && log == []
    {
      h := heap;
      size, dataSize, miscSize, xlat, log := 0, 0, 0, {}, [];
    }

    /** ADD_STRING. */
    method AddString(p: nat)
      requires Valid() && ItemOk(h, Val(StrV(p)))
      modifies this
      ensures Valid() && Counted(h, old(log), old(size), log, size, [Val(StrV(p))], 0)
    {
      WalkOne(h, Measure, log, Val(StrV(p)));
      if p !in xlat {
        var s := Aligned(|h[p].raw|);
        size, dataSize := size + s, dataSize + s;
        xlat, log := xlat + {p}, log + [p];
      }
    }

    /** The data a persisted table takes, with the halving loop of the sparse case. */
    method HashCalc(t: Table) returns (bytes: nat)
      requires TableOk(h, t)
      ensures bytes == DataBytes(t)
      ensures t.buckets == [] ==> bytes == 0
      ensures t.buckets != [] ==>
                exists hash: nat ::
                  KeepsHash(t, hash) && bytes == hash + (if t.packed then 16 else 32) * |t.buckets|
    {
      if t.buckets != [] {
        HashKept(h, t);
        assert KeepsHash(t, 4 * KeptHashSize(t));
      }
      if t.uninit || |t.buckets| == 0 {
        return 0;
      }
      if t.packed {
        return Aligned(4 * PACKED_HASH_SIZE + SIZEOF_ZVAL * |t.buckets|);
      }
      var hashSize := t.hashSize;
      if HashCompact.Sparse(hashSize, |t.buckets|) {
        hashSize := HashCompact.HashTable.ShrinkHash(hashSize, |t.buckets|);
      }
      return Aligned(4 * hashSize + SIZEOF_BUCKET * |t.buckets|);
    }

    /** ADD_SIZE. */
    method AddMisc(bytes: nat)
      modifies `size, `miscSize
      ensures size == old(size) + bytes && miscSize == old(miscSize) + bytes
    {
      size, miscSize := size + bytes, miscSize + bytes;
    }

    /** zend_persist_zval_calc: what it adds is what the walk from z logs. */
    method ZvalCalc(z: Zval)
      requires Valid() && ItemOk(h, Val(z))
      modifies this
      ensures Valid() && Counted(h, old(log), old(size), log, size, [Val(z)], 0)
      decreases Unlogged(h, log), ValWeight(h, z), 1
    {
      ghost var log0, size0 := log, size;
      StepOk(h, Measure, log, Val(z));
      if z.StrV? {
        AddString(z.p);
      } else if z.ArrV? {
        var p := z.p;
        if p !in xlat {
          assert ObjOk(h, p);
          xlat, log := xlat + {p}, log + [p];
          AddMisc(SIZEOF_ARRAY);
          var data := HashCalc(h[p].t);
          AddMisc(data);
          assert p in Unlogged(h, log0) && p !in Unlogged(h, log);
          UnloggedShrinks(h, log0, log);
          BucketsCalc(h[p].t, log0);
        }
        CountedStep(h, log0, size0, Val(z), log, size, 0);
      } else if z.AstV? {
        var p := z.p;
        assert ObjOk(h, p);
        log := log + [p];
        AddMisc(SIZEOF_AST_REF);
        AstCalc(p, h[p].root);
        CountedStep(h, log0, size0, Val(z), log, size, 0);
      } else {
        CountedStep(h, log0, size0, Val(z), log, size, 0);
      }
    }

    /** The loop over the elements of a table just registered. */
    method BucketsCalc(t: Table, ghost outer: seq<nat>)
      requires Valid() && TableOk(h, t)
      requires Unlogged(h, log) < Unlogged(h, outer)
      modifies this
      ensures Valid() && Counted(h, old(log), old(size), log, size, TableItems(t.buckets), 0)
      decreases Unlogged(h, outer), 0, 0
    {
      ghost var log0, size0 := log, size;
      var i := 0;
      while i < |t.buckets|
        invariant 0 <= i <= |t.buckets|
        invariant Valid() && Unlogged(h, log) < Unlogged(h, outer)
        invariant Counted(h, log0, size0, log, size, TableItems(t.buckets[..i]), 0)
      {
        var b := t.buckets[i];
        ghost var log1, size1 := log, size;
        if !b.val.Undef? {
          if b.key != 0 { AddString(b.key); }
          ghost var log2, size2 := log, size;
          UnloggedShrinks(h, log1, log2);
          ZvalCalc(b.val);
          if b.key == 0 {
            assert BucketItems(b) == [Val(b.val)];
          } else {
            CountedThen(h, log1, size1, log2, size2, [Val(StrV(b.key))], 0, log, size, [Val(b.val)], 0);
          }
          UnloggedShrinks(h, log2, log);
        }
        assert Counted(h, log1, size1, log, size, BucketItems(b), 0);
        CountedThen(h, log0, size0, log1, size1, TableItems(t.buckets[..i]), 0, log, size, BucketItems(b), 0);
        TableItemsSplit(t.buckets, i);
        i := i + 1;
      }
      assert t.buckets[..i] == t.buckets;
    }

    /** zend_persist_ast_calc: the node's own bytes, then its literal or its children. */
    method AstCalc(owner: nat, a: Ast)
      requires Valid() && ItemOk(h, Node(owner, a))
      modifies this
      ensures Valid() && Counted(h, old(log), old(size), log, size, [Node(owner, a)], TreeBytes(Measure, a))
      decreases Unlogged(h, log), TreeWeight(h, owner, a), 0
    {
      ghost var log0, size0 := log, size;
      AddMisc(CalcNodeBytes(a));
      match a {
        case ValNode(_, v) => ZvalCalc(v);
        case Inner(_, kids) => KidsCalc(owner, kids);
      }
      CountedStep(h, log0, size0, Node(owner, a), log, size, TreeBytes(Measure, a));
    }

    method KidsCalc(owner: nat, kids: seq<Ast>)
      requires Valid() && KidsOk(h, owner, kids)
      modifies this
      ensures Valid() && Counted(h, old(log), old(size), log, size, KidItems(owner, kids), KidsBytes(Measure, kids))
      decreases Unlogged(h, log), KidsWeight(h, owner, kids), 1
    {
      hide Counted, Walk, LogBytes, Unlogged;
      CountedNothing(h, log, size);
      ghost var log0, size0 := log, size;
      var i := 0;
      while i < |kids|
        invariant 0 <= i <= |kids|
        invariant Valid() && Unlogged(h, log) <= Unlogged(h, log0)
        invariant Counted(h, log0, size0, log, size, KidItems(owner, kids[..i]), KidsBytes(Measure, kids[..i]))
      {
        ghost var log1, size1 := log, size;
        KidAt(h, owner, kids, i);
        if !kids[i].Absent? {
          AstCalc(owner, kids[i]);
          CountedThen(h, log0, size0, log1, size1, KidItems(owner, kids[..i]), KidsBytes(Measure, kids[..i]),
                      log, size, [Node(owner, kids[i])], TreeBytes(Measure, kids[i]));
        } else {
          assert KidItems(owner, kids[..i]) + [] == KidItems(owner, kids[..i]);
        }
        KidItemsSplit(owner, kids, i);
        KidsBytesSplit(Measure, kids, i);
        i := i + 1;
      }
      assert kids[..i] == kids;
    }
  }

  /**
   The measuring pass over a script's values: the order-free size of what it meets, on top of the
   header bytes counted for the rest of the script.  The result is a uint32_t.
   */
  method ScriptPersistCalc(h: Heap, header: nat, roots: seq<Zval>) returns (size: nat)
    requires HeapOk(h) && WorkOk(h, RootItems(roots))
    ensures size == (header + Measured(h, RootItems(roots))) % 0x1_0000_0000
  {
    var script := new ScriptSize(h);
    var i := 0;
    while i < |roots|
      invariant 0 <= i <= |roots|
      invariant script.h == h && script.Valid()
      invariant Counted(h, [], 0, script.log, script.size, RootItems(roots[..i]), 0)
    {
      assert RootItems(roots)[i] == Val(roots[i]);
      ghost var log, size := script.log, script.size;
      script.ZvalCalc(roots[i]);
      CountedThen(h, [], 0, log, size, RootItems(roots[..i]), 0, script.log, script.size, [Val(roots[i])], 0);
      assert RootItems(roots[..i + 1]) == RootItems(roots[..i]) + [Val(roots[i])];
      i := i + 1;
    }
    assert roots[..i] == roots;
    size := (header + script.size) % UINT32;
  }
}
