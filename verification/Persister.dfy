/** The copying pass as the program runs it: a bump pointer, a translation table, and slots
    overwritten in place. */
module Persister {
  import opened ZendGraph
  import opened Arena
  import opened PersistCopy
  import opened CopyIso
  import opened CopyTheorems
  import opened CopyImage
  import HashCompact

  class Persister {
    const h: Heap
    const base: nat
    var used: nat                  // ZCG(mem) - script->mem
    var xlat: map<nat, nat>
    var objs: map<nat, AObj>
    var cells: map<Slot, Zval>
    ghost var from: map<nat, Ast>
    ghost const roots: seq<Zval>

    ghost function State(): Store
      reads this
    {
      Store(base, used, xlat, objs, cells, from, roots)
    }

    constructor (heap: Heap, mem: nat, header: nat, values: seq<Zval>)
      ensures h == heap && State() == Start(mem, header, values)
    {
      h, base, used, xlat, objs, from, roots := heap, mem, header, map[], map[], map[], values;
      cells := map i: nat | i < |values| :: Root(i) := values[i];
    }

    /** Reserve size bytes at the end of the arena. */
    method Bump(size: nat) returns (off: nat)
      modifies `used
      ensures off == old(used) && used == old(used) + size
    {
      off := used;
      used := used + size;
    }

    /** _opkit_shared_memdup_put: a source met before has its copy already. */
    method MemdupPut(source: nat, copy: AObj, size: nat) returns (off: nat)
      requires source in xlat ==> xlat[source] >= base
      modifies `used, `xlat, `objs
      ensures source in xlat && xlat[source] == base + off
      ensures source in old(xlat) ==> used == old(used) && xlat == old(xlat) && objs == old(objs)
      ensures source !in old(xlat) ==>
                && off == old(used) && used == old(used) + size
                && xlat == old(xlat)[source := base + off] && objs == old(objs) + map[off := copy]
    {
      if source in xlat {
        return xlat[source] - base;
      }
      off := Bump(size);
      objs := objs + map[off := copy];
      xlat := xlat[source := base + off];
    }

    /** zend_accel_store_string on the string slot s. */
    method StoreString(s: Slot)
      requires HeapOk(h) && s in cells && cells[s].StrV? && ValOk(h, cells[s])
      modifies this
      ensures State() == PRun(h, old(State()), [Fix(s)])
    {
      var p := cells[s].p;
      PRunOne(h, State(), Fix(s));
      if p in xlat {
        cells := cells[s := StrV(xlat[p])];
      } else {
        var off := MemdupPut(p, AString(true, h[p].raw), Aligned(|h[p].raw|));
        cells := cells[s := StrV(base + off)];
      }
    }

    /** The data part of zend_hash_persist: the hash part, compacted if the table is sparse,
        and the buckets behind it. */
    method ReserveData(t: Table) returns (area: nat)
      requires TableOk(h, t) && t.buckets != []
      modifies `used
      ensures area == old(used) + 4 * KeptHashSize(t) && used == old(used) + DataBytes(t)
    {
      var hashSize := t.hashSize;
      if t.packed {
        hashSize := PACKED_HASH_SIZE;
      } else if HashCompact.Sparse(hashSize, |t.buckets|) {
        hashSize := HashCompact.HashTable.ShrinkHash(hashSize, |t.buckets|);
      }
      var data := Bump(Aligned(4 * hashSize + ElementBytes(t.packed, |t.buckets|)));
      area := data + 4 * hashSize;
    }

    /** The array header and, unless the table is empty, its data, copied as they are. */
    method PersistTable(p: nat) returns (header: nat)
      requires p in h && h[p].ArrObj? && TableOk(h, h[p].t) && p !in xlat
      modifies this
      ensures header == old(used) && State() == CopyTable(old(State()), p, h[p].t).0
    {
      hide TableOk, KeptHashSize, AreaCells, TableTasks, DataBytes, TableObjs, TableCells;
      var t := h[p].t;
      header := MemdupPut(p, AHeader(|t.buckets| == 0, t.packed, |t.buckets|), SIZEOF_ARRAY);
      if |t.buckets| == 0 {
        EmptyTable(base, header, t);
        cells := cells + map[ArData(header) := Ptr(UNINITIALIZED_BUCKET)];
      } else {
        var area := ReserveData(t);
        objs := objs + map[area := AArea(t.packed, 4 * KeptHashSize(t), |t.buckets|)];
        cells := cells + (map[ArData(header) := Ptr(base + area)] + AreaCells(area, t.buckets));
        FullTable(base, header, t, old(objs));
        assert objs == old(objs) + TableObjs(header, t) && cells == old(cells) + TableCells(base, header, t);
      }
    }

    /** One node, copied as it is. */
    method PutNode(ghost owner: nat, a: Ast) returns (node: nat)
      requires !a.Absent?
      modifies this
      ensures node == old(used) && State() == CopyNode(old(State()), owner, a).0
    {
      hide PersistNodeBytes, NodeShape, NodeCells;
      node := Bump(PersistNodeBytes(a));
      objs := objs + map[node := NodeShape(a)];
      cells := cells + NodeCells(node, a);
      from := from + map[node := a];
    }

    /** zend_persist_zval on the value in slot s, while rest is still pending. */
    method PersistZval(s: Slot, ghost rest: seq<Task>)
      requires Inv(h, State(), [Fix(s)] + rest)
      modifies this
      ensures State() == PRun(h, old(State()), [Fix(s)]) && Inv(h, State(), rest)
      ensures old(xlat).Keys <= xlat.Keys
      decreases h.Keys - xlat.Keys, 1, 0
    {
      hide Inv, PStep, CopyTable, CopyRef, CopyString, Kept, PRun;
      ghost var st := State();
      FirstTask(h, st, [Fix(s)] + rest);
      RunPartKeeps(h, st, [Fix(s)], rest);
      RunXlatGrows(h, st, [Fix(s)]);
      PRunOne(h, st, Fix(s));
      PStepNew(h, st, s);
      var v := cells[s];
      if v.StrV? {
        StoreString(s);
      } else if v.ArrV? && v.p !in xlat {
        PersistArray(s, v.p, rest);
      } else if v.AstV? && v.p !in xlat && Kept(h[v.p].root) {
        PersistRef(s, v.p, rest);
      } else {
        PStepOld(h, st, s);
        PRunNone(h, PStep(h, st, Fix(s)).0);
        cells := cells[s := Rewritten(h, xlat, v)];
      }
    }

    /** A table met for the first time: copy it, store its address, then its elements. */
    method PersistArray(s: Slot, p: nat, ghost rest: seq<Task>)
      requires Inv(h, State(), [Fix(s)] + rest) && s in cells && cells[s] == ArrV(p)
      requires p in h && h[p].ArrObj? && p !in xlat && TableOk(h, h[p].t)
      modifies this
      ensures var (st, more) := CopyTable(old(State()), p, h[p].t);
              State() == PRun(h, Put(st, s, ArrV(old(base + used))), more)
      decreases h.Keys - xlat.Keys, 0, 0
    {
      hide Inv, CopyTable, PRun;
      ghost var st := State();
      ghost var keys := h.Keys - xlat.Keys;
      TableStep(h, st, s, rest, p);
      CopyTableParts(st, p, h[p].t);
      var header := PersistTable(p);
      cells := cells[s := ArrV(base + header)];
      assert p in keys && p !in h.Keys - xlat.Keys;
      PersistBuckets(AreaOffset(header, h[p].t), h[p].t.buckets, rest);
    }

    /** The loop over the copied elements: key first, then value; dead buckets are skipped. */
    method PersistBuckets(area: nat, bs: seq<Bucket>, ghost rest: seq<Task>)
      requires Inv(h, State(), TableTasks(area, bs, 0) + rest)
      modifies this
      ensures State() == PRun(h, old(State()), TableTasks(area, bs, 0))
      decreases h.Keys - xlat.Keys, 2, 0
    {
      hide Inv, PRun;
      ghost var st := State();
      var i := 0;
      while i < |bs|
        invariant 0 <= i <= |bs| && old(xlat).Keys <= xlat.Keys
        invariant Inv(h, State(), TableTasks(area, bs, i) + rest)
        invariant PRun(h, State(), TableTasks(area, bs, i)) == PRun(h, st, TableTasks(area, bs, 0))
      {
        ghost var now, tail := State(), TableTasks(area, bs, i + 1);
        assert TableTasks(area, bs, i) == BucketTasks(area, i, bs[i]) + tail;
        PRunAppend(h, now, BucketTasks(area, i, bs[i]), tail);
        assert BucketTasks(area, i, bs[i]) + tail + rest == BucketTasks(area, i, bs[i]) + (tail + rest);
        PersistBucket(area, i, bs[i], tail + rest);
        i := i + 1;
      }
      PRunNone(h, State());
    }

    method PersistBucket(area: nat, i: nat, b: Bucket, ghost rest: seq<Task>)
      requires Inv(h, State(), BucketTasks(area, i, b) + rest)
      modifies this
      ensures State() == PRun(h, old(State()), BucketTasks(area, i, b)) && Inv(h, State(), rest)
      ensures old(xlat).Keys <= xlat.Keys
      decreases h.Keys - xlat.Keys, 1, 1
    {
      hide Inv, PRun;
      ghost var st := State();
      RunPartKeeps(h, st, BucketTasks(area, i, b), rest);
      PRunNone(h, st);
      if !b.val.Undef? {
        if b.key != 0 {
          PRunAppend(h, st, [Fix(Key(area, i))], [Fix(Elem(area, i))]);
          assert BucketTasks(area, i, b) + rest == [Fix(Key(area, i))] + ([Fix(Elem(area, i))] + rest);
          PersistZval(Key(area, i), [Fix(Elem(area, i))] + rest);
        } else {
          assert BucketTasks(area, i, b) == [Fix(Elem(area, i))];
        }
        PersistZval(Elem(area, i), rest);
      } else {
        assert BucketTasks(area, i, b) + rest == rest;
      }
    }

    /** A kept expression met for the first time.  The address zend_persist_ast returns for
        the root is dropped: it is found again right behind the copied reference. */
    method PersistRef(s: Slot, p: nat, ghost rest: seq<Task>)
      requires Inv(h, State(), [Fix(s)] + rest) && HeapOk(h) && s in cells && cells[s] == AstV(p)
      requires p in h && h[p].RefObj? && Kept(h[p].root) && p !in xlat
      modifies this
      ensures var (st, more) := CopyRef(old(State()), p, h[p].root);
              State() == PRun(h, Put(st, s, AstV(old(base + used))), more)
      decreases h.Keys - xlat.Keys, 0, 0
    {
      hide Inv, PRun, NodeTasks, CopyRef, Kept, AstOk, HeapOk;
      ghost var st := State();
      ghost var keys := h.Keys - xlat.Keys;
      RootPresent(h, p);
      RefStep(h, st, s, rest, p);
      CopyRefParts(st, p, h[p].root);
      var ref, root := PutRef(p, h[p].root);
      cells := cells[s := AstV(base + ref)];
      assert p in keys && p !in h.Keys - xlat.Keys;
      PersistNode(root, p, h[p].root, rest);
    }

    /** The reference, and its root node behind it. */
    method PutRef(p: nat, a: Ast) returns (ref: nat, root: nat)
      requires !a.Absent? && p !in xlat
      modifies this
      ensures ref == old(used) && root == ref + SIZEOF_AST_REF
      ensures State() == CopyRef(old(State()), p, a).0
    {
      hide CopyNode, CopyRef;
      ghost var st := State();
      ref := MemdupPut(p, ARef, SIZEOF_AST_REF);
      root := PutNode(p, a);
      CopyRefParts(st, p, a);
    }

    /** What hangs below a node just copied. */
    method PersistNode(node: nat, owner: nat, a: Ast, ghost rest: seq<Task>)
      requires !a.Absent? && Inv(h, State(), NodeTasks(node, owner, a) + rest)
      modifies this
      ensures State() == PRun(h, old(State()), NodeTasks(node, owner, a)) && Inv(h, State(), rest)
      ensures old(xlat).Keys <= xlat.Keys
      decreases h.Keys - xlat.Keys, 2 + NodeCount(a), 0
    {
      hide Inv, PRun;
      ghost var st := State();
      RunPartKeeps(h, st, NodeTasks(node, owner, a), rest);
      match a {
        case ValNode(_, _) => PersistZval(NodeVal(node), rest);
        case Inner(_, kids) =>
          var i := 0;
          while i < |kids|
            invariant 0 <= i <= |kids| && old(xlat).Keys <= xlat.Keys
            invariant Inv(h, State(), KidTasks(node, owner, kids, i) + rest)
            invariant PRun(h, State(), KidTasks(node, owner, kids, i)) == PRun(h, st, KidTasks(node, owner, kids, 0))
          {
            if !kids[i].Absent? {
              ghost var now, tail, head := State(), KidTasks(node, owner, kids, i + 1),
                          [Sub(Child(node, i), owner, kids[i])];
              assert KidTasks(node, owner, kids, i) == head + tail;
              PRunAppend(h, now, head, tail);
              assert head + tail + rest == head + (tail + rest);
              KidCount(kids, i);
              PersistChild(Child(node, i), owner, kids[i], tail + rest);
            } else {
              assert KidTasks(node, owner, kids, i) == KidTasks(node, owner, kids, i + 1);
            }
            i := i + 1;
          }
          PRunNone(h, State());
      }
    }

    /** zend_persist_ast on the child in slot s.  The program stores the address after the
        recursion returns, the model before; nothing reads the slot in between. */
    method PersistChild(s: Slot, owner: nat, a: Ast, ghost rest: seq<Task>)
      requires !a.Absent? && Inv(h, State(), [Sub(s, owner, a)] + rest)
      modifies this
      ensures State() == PRun(h, old(State()), [Sub(s, owner, a)]) && Inv(h, State(), rest)
      ensures old(xlat).Keys <= xlat.Keys
      decreases h.Keys - xlat.Keys, 2 + NodeCount(a), 1
    {
      hide Inv, PRun, NodeTasks, NodeCells, NodeShape, PersistNodeBytes;
      ghost var st := State();
      RunPartKeeps(h, st, [Sub(s, owner, a)], rest);
      PRunOne(h, st, Sub(s, owner, a));
      SubStep(h, st, s, owner, a, rest);
      var node := PutNode(owner, a);
      cells := cells[s := Ptr(base + node)];
      PersistNode(node, owner, a, rest);
    }
  }

  /** zend_accel_script_persist for the values of a script: the block it leaves behind is the
      specified one. */
  method ScriptPersist(h: Heap, base: nat, header: nat, roots: seq<Zval>) returns (img: Image, xlat: map<nat, nat>)
    requires Given(h, header, roots)
    ensures img == ImageOf(Persist(h, base, header, roots)) && xlat == Persist(h, base, header, roots).xlat
  {
    hide Inv, PRun;
    var script := new Persister(h, base, header, roots);
    StartInv(h, base, header, roots);
    var i := 0;
    while i < |roots|
      invariant 0 <= i <= |roots| && script.h == h && script.base == base
      invariant Inv(h, script.State(), RootTasks(i, |roots|))
      invariant PRun(h, script.State(), RootTasks(i, |roots|)) == Persist(h, base, header, roots)
    {
      PRunAppend(h, script.State(), [Fix(Root(i))], RootTasks(i + 1, |roots|));
      script.PersistZval(Root(i), RootTasks(i + 1, |roots|));
      i := i + 1;
    }
    PRunNone(h, script.State());
    img, xlat := Image(script.base, script.used, script.objs, script.cells), script.xlat;
  }

  lemma PRunNone(h: Heap, st: Store)
    ensures PRun(h, st, []) == st
  {
  }

  lemma {:induction false} KidCount(kids: seq<Ast>, i: nat)
    requires i < |kids|
    ensures NodeCount(kids[i]) < NodeCounts(kids)
  {
    if i > 0 { KidCount(kids[1..], i - 1); }
  }

  lemma CopyRefParts(st: Store, p: nat, root: Ast)
    ensures var node := st.used + SIZEOF_AST_REF;
            var ref := st.(used := node, xlat := st.xlat[p := st.base + st.used],
                           objs := st.objs + map[st.used := ARef]);
            && CopyRef(st, p, root) == (CopyNode(ref, p, root).0, NodeTasks(node, p, root))
            && CopyRef(st, p, root).0.xlat == ref.xlat
  {
    hide NodeTasks, NodeCells, NodeShape, PersistNodeBytes;
    AddTwo(st.objs, st.used, ARef, st.used + SIZEOF_AST_REF, NodeShape(root));
  }

  lemma CopyTableParts(st: Store, p: nat, t: Table)
    ensures CopyTable(st, p, t).1 == TableTasks(AreaOffset(st.used, t), t.buckets, 0)
    ensures CopyTable(st, p, t).0.xlat == st.xlat[p := st.base + st.used]
  {
  }

  lemma EmptyTable(base: nat, header: nat, t: Table)
    requires t.buckets == []
    ensures TableObjs(header, t) == map[header := AHeader(true, t.packed, 0)] && DataBytes(t) == 0
    ensures TableCells(base, header, t) == map[ArData(header) := Ptr(UNINITIALIZED_BUCKET)]
  {
  }

  lemma FullTable(base: nat, header: nat, t: Table, objs: map<nat, AObj>)
    requires t.buckets != []
    ensures var area := header + SIZEOF_ARRAY + 4 * KeptHashSize(t);
            && TableCells(base, header, t) == map[ArData(header) := Ptr(base + area)] + AreaCells(area, t.buckets)
            && objs + TableObjs(header, t) ==
                 objs + map[header := AHeader(false, t.packed, |t.buckets|)]
                   + map[area := AArea(t.packed, 4 * KeptHashSize(t), |t.buckets|)]
  {
    hide KeptHashSize, AreaCells;
    var area, kept := AreaOffset(header, t), AArea(t.packed, 4 * KeptHashSize(t), |t.buckets|);
    assert TableCells(base, header, t) == map[ArData(header) := Ptr(base + area)] + AreaCells(area, t.buckets);
    assert area != header && area == header + SIZEOF_ARRAY + 4 * KeptHashSize(t);
    assert TableObjs(header, t) == map[header := AHeader(false, t.packed, |t.buckets|), area := kept];
    hide TableObjs, TableCells, AreaOffset;
    AddTwo(objs, header, AHeader(false, t.packed, |t.buckets|), area, kept);
  }

  lemma AddTwo(objs: map<nat, AObj>, a: nat, x: AObj, b: nat, y: AObj)
    requires a != b
    ensures objs + map[a := x] + map[b := y] == objs + map[a := x, b := y]
  {
  }
}
