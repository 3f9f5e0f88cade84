/**
 The copying pass walks as SizeAccounting says, so its end of arena is the closed form that
 the size theorems compare with the measured size.
 */
module CopySizes {
  import opened ZendGraph
  import opened Arena
  import opened SizeAccounting
  import opened PersistCopy
  import opened CopyIso
  import opened CopyTheorems

  /** A pending task, seen as an item of the walk. */
  ghost function ItemOf(st: Store, t: Task): Item {
    match t
    case Fix(s) => if s in st.cells then Val(st.cells[s]) else Val(Null)
    case Sub(_, owner, a) => Node(owner, a)
  }

  ghost function ItemsOf(st: Store, work: seq<Task>): seq<Item> {
    if work == [] then [] else [ItemOf(st, work[0])] + ItemsOf(st, work[1..])
  }

  /** Bytes of the nodes that are still to be copied. */
  ghost function TaskBytes(work: seq<Task>): nat {
    if work == [] then 0 else (if work[0].Sub? then TreeBytes(Copy, work[0].a) else 0) + TaskBytes(work[1..])
  }

  lemma {:induction false} ItemsAppend(st: Store, a: seq<Task>, b: seq<Task>)
    ensures ItemsOf(st, a + b) == ItemsOf(st, a) + ItemsOf(st, b)
    ensures TaskBytes(a + b) == TaskBytes(a) + TaskBytes(b)
  {
    if a == [] { assert a + b == b; } else {
      ItemsAppend(st, a[1..], b);
      assert (a + b)[1..] == a[1..] + b;
    }
  }

  lemma {:induction false} ItemsStay(h: Heap, st: Store, st': Store, work: seq<Task>)
    requires TasksOk(h, st, work)
    requires forall s :: s in WaitSet(work) ==> s in st.cells && s in st'.cells && st'.cells[s] == st.cells[s]
    ensures ItemsOf(st', work) == ItemsOf(st, work)
  {
    if work != [] {
      assert TaskOk(h, st, work[0]);
      ItemsStay(h, st, st', work[1..]);
    }
  }

  lemma {:induction false} ItemsOk(h: Heap, st: Store, work: seq<Task>)
    requires TasksOk(h, st, work)
    ensures WorkOk(h, ItemsOf(st, work))
  {
    if work != [] {
      assert TaskOk(h, st, work[0]);
      ItemsOk(h, st, work[1..]);
    }
  }

  lemma {:induction false} TableTasksItems(st: Store, area: nat, bs: seq<Bucket>, i: nat)
    requires i <= |bs|
    requires forall u :: u in AreaCells(area, bs) ==> u in st.cells && st.cells[u] == AreaCells(area, bs)[u]
    ensures ItemsOf(st, TableTasks(area, bs, i)) == TableItems(bs[i..])
    ensures TaskBytes(TableTasks(area, bs, i)) == 0
    decreases |bs| - i
  {
    hide AreaCells;
    if i < |bs| {
      TableTasksItems(st, area, bs, i + 1);
      assert bs[i..][1..] == bs[i + 1..];
      assert Key(area, i) in AreaCells(area, bs) && Elem(area, i) in AreaCells(area, bs);
      BucketTasksItems(st, area, i, bs[i]);
      assert TableTasks(area, bs, i) == BucketTasks(area, i, bs[i]) + TableTasks(area, bs, i + 1);
      ItemsAppend(st, BucketTasks(area, i, bs[i]), TableTasks(area, bs, i + 1));
    }
  }

  lemma BucketTasksItems(st: Store, area: nat, i: nat, b: Bucket)
    requires Key(area, i) in st.cells && st.cells[Key(area, i)] == StrV(b.key)
    requires Elem(area, i) in st.cells && st.cells[Elem(area, i)] == b.val
    ensures ItemsOf(st, BucketTasks(area, i, b)) == BucketItems(b)
    ensures TaskBytes(BucketTasks(area, i, b)) == 0
  {
    var elem, key := [Fix(Elem(area, i))], [Fix(Key(area, i))];
    assert elem[1..] == [] && key[1..] == [];
    assert ItemsOf(st, elem) == [Val(b.val)] && ItemsOf(st, key) == [Val(StrV(b.key))];
    ItemsAppend(st, key, elem);
    if !b.val.Undef? && b.key == 0 { assert BucketTasks(area, i, b) == elem; }
  }

  lemma {:induction false} KidTasksItems(st: Store, node: nat, owner: nat, kids: seq<Ast>, i: nat)
    requires i <= |kids|
    ensures ItemsOf(st, KidTasks(node, owner, kids, i)) == KidItems(owner, kids[i..])
    ensures TaskBytes(KidTasks(node, owner, kids, i)) == KidsBytes(Copy, kids[i..])
    decreases |kids| - i
  {
    if i < |kids| {
      KidTasksItems(st, node, owner, kids, i + 1);
      assert kids[i..][1..] == kids[i + 1..];
      var head := if kids[i].Absent? then [] else [Sub(Child(node, i), owner, kids[i])];
      ItemsAppend(st, head, KidTasks(node, owner, kids, i + 1));
      assert head != [] ==> head[1..] == [];
    }
  }

  /** The work left by a copied node is the items the walk uncovers there. */
  lemma NodeTasksItems(h: Heap, st: Store, node: nat, owner: nat, a: Ast, log: seq<nat>)
    requires !a.Absent? && AstOk(h, owner, a)
    requires forall u :: u in NodeCells(node, a) ==> u in st.cells && st.cells[u] == NodeCells(node, a)[u]
    ensures Step(h, Copy, log, Node(owner, a)) == (log, ItemsOf(st, NodeTasks(node, owner, a)))
    ensures PersistNodeBytes(a) + TaskBytes(NodeTasks(node, owner, a)) == TreeBytes(Copy, a)
  {
    hide KidTasks;
    if a.ValNode? {
      assert NodeVal(node) in NodeCells(node, a);
      assert [Fix(NodeVal(node))][1..] == [];
      assert ItemsOf(st, [Fix(NodeVal(node))]) == [Val(a.val)];
    } else {
      KidTasksItems(st, node, owner, a.kids, 0);
      assert a.kids[0..] == a.kids;
    }
  }

  /** Other slots keep their cells. */
  lemma StepLeavesCells(h: Heap, st: Store, task: Task)
    requires Bounded(st) && TaskOk(h, st, task)
    ensures var st' := PStep(h, st, task).0;
            forall u :: u in st.cells && u != task.s ==> u in st'.cells && st'.cells[u] == st.cells[u]
  {
    hide TableCells, NodeCells, TableTasks, NodeTasks, DataBytes, PersistNodeBytes, TableObjs, NodeShape, Kept;
    var node, header := st.used + SIZEOF_AST_REF, st.used;
    if task.Fix? && st.cells[task.s].ArrV? {
      TableCellsBeyond(st.base, header, h[st.cells[task.s].p].t);
    } else if task.Fix? && st.cells[task.s].AstV? {
      NodeCellsBeyond(node, h[st.cells[task.s].p].root);
    } else if task.Sub? {
      NodeCellsBeyond(header, task.a);
    }
  }

  lemma TableCellsBeyond(base: nat, header: nat, t: Table)
    ensures forall u :: u in TableCells(base, header, t) ==> Owner(u) >= header
  {
    AreaBeyond(header, t);
  }

  lemma NodeCellsBeyond(node: nat, a: Ast)
    ensures forall u :: u in NodeCells(node, a) ==> Owner(u) == node
  {
  }

  /** Where the arena ends after one step, against the step of the walk. */
  ghost predicate StepCounted(h: Heap, st: Store, task: Task, log: seq<nat>)
    requires ItemOk(h, ItemOf(st, task))
  {
    var (st', more) := PStep(h, st, task);
    var (log', items) := Step(h, Copy, log, ItemOf(st, task));
    && st'.xlat.Keys == Elems(log')
    && (|| ItemsOf(st', more) == items
        || (|items| == 1 && ItemOk(h, items[0]) && Step(h, Copy, log', items[0]) == (log', ItemsOf(st', more))))
    && st'.used + TaskBytes(more) ==
         st.used + TaskBytes([task]) + (if |log'| > |log| then ObjBytes(Copy, h[log'[|log|]]) else 0)
  }

  lemma SubCounted(h: Heap, st: Store, s: Slot, owner: nat, a: Ast, log: seq<nat>)
    requires Bounded(st) && TaskOk(h, st, Sub(s, owner, a)) && st.xlat.Keys == Elems(log)
    ensures StepCounted(h, st, Sub(s, owner, a), log)
  {
    hide NodeTasks, NodeShape, NodeCells, TreeBytes, PersistNodeBytes, Bounded, Added;
    var (st', more) := PStep(h, st, Sub(s, owner, a));
    assert PersistNodeBytes(a) > 0;
    NodeAdded(st, s, owner, a);
    AddedFrame(st, st', s, Ptr(st.base + st.used), map[st.used := NodeShape(a)], NodeCells(st.used, a),
               map[st.used := a]);
    NodeTasksItems(h, st', st.used, owner, a, log);
    assert [Sub(s, owner, a)][1..] == [];
    assert TaskBytes([Sub(s, owner, a)]) == TreeBytes(Copy, a);
    assert st'.used == st.used + PersistNodeBytes(a);
    assert more == NodeTasks(st.used, owner, a);
    assert st'.xlat.Keys == Elems(log);
  }

  lemma LogGrows(xlat: map<nat, nat>, log: seq<nat>, p: nat, x: nat)
    requires xlat.Keys == Elems(log)
    ensures xlat[p := x].Keys == Elems(log + [p])
  {
  }

  lemma TableCounted(h: Heap, st: Store, s: Slot, p: nat, log: seq<nat>)
    requires Bounded(st) && HeapOk(h) && TaskOk(h, st, Fix(s)) && st.xlat.Keys == Elems(log)
    requires st.cells[s] == ArrV(p) && p !in st.xlat
    ensures StepCounted(h, st, Fix(s), log)
  {
    hide TableTasks, TableCells, TableObjs, DataBytes, Bounded, Added, AreaOffset, TableItems;
    var t := h[p].t;
    PStepNew(h, st, s);
    hide PStep;
    var (st', more) := PStep(h, st, Fix(s));
    TableAdded(st, s, p, t);
    AddedFrame(st, st', s, ArrV(st.base + st.used), TableObjs(st.used, t), TableCells(st.base, st.used, t), map[]);
    TableItemsMatch(st', st.used, t);
    assert [Fix(s)][1..] == [] && TaskBytes([Fix(s)]) == 0;
    LogGrows(st.xlat, log, p, st.base + st.used);
    assert ObjBytes(Copy, h[p]) == SIZEOF_ARRAY + DataBytes(t);
    assert st'.xlat == st.xlat[p := st.base + st.used];
    assert more == TableTasks(AreaOffset(st.used, t), t.buckets, 0);
  }

  lemma TableItemsMatch(st: Store, header: nat, t: Table)
    requires forall u :: u in TableCells(st.base, header, t) ==>
               u in st.cells && st.cells[u] == TableCells(st.base, header, t)[u]
    ensures ItemsOf(st, TableTasks(AreaOffset(header, t), t.buckets, 0)) == TableItems(t.buckets)
    ensures TaskBytes(TableTasks(AreaOffset(header, t), t.buckets, 0)) == 0
  {
    hide AreaOffset, AreaCells, TableTasks;
    var area := AreaOffset(header, t);
    if t.buckets == [] {
      EmptyTasks(area, t.buckets);
    } else {
      forall u | u in AreaCells(area, t.buckets)
        ensures u in TableCells(st.base, header, t)
        ensures TableCells(st.base, header, t)[u] == AreaCells(area, t.buckets)[u] {}
      TableTasksItems(st, area, t.buckets, 0);
      assert t.buckets[0..] == t.buckets;
    }
  }

  lemma EmptyTasks(area: nat, bs: seq<Bucket>)
    requires bs == []
    ensures TableTasks(area, bs, 0) == []
  {
  }

  lemma RefCounted(h: Heap, st: Store, s: Slot, p: nat, log: seq<nat>)
    requires Bounded(st) && HeapOk(h) && TaskOk(h, st, Fix(s)) && st.xlat.Keys == Elems(log)
    requires st.cells[s] == AstV(p) && p !in st.xlat && Kept(h[p].root)
    ensures StepCounted(h, st, Fix(s), log)
  {
    hide NodeTasks, NodeShape, NodeCells, RefObjs, TreeBytes, PersistNodeBytes, Bounded, Added, Kept;
    var root, node := h[p].root, st.used + SIZEOF_AST_REF;
    RootPresent(h, p);
    PStepNew(h, st, s);
    hide PStep;
    var (st', more) := PStep(h, st, Fix(s));
    RefAdded(st, s, p, root);
    AddedFrame(st, st', s, AstV(st.base + st.used), RefObjs(st.used, root), NodeCells(node, root), map[node := root]);
    NodeTasksItems(h, st', node, p, root, log + [p]);
    assert [Fix(s)][1..] == [] && TaskBytes([Fix(s)]) == 0;
    LogGrows(st.xlat, log, p, st.base + st.used);
    assert st'.xlat == st.xlat[p := st.base + st.used];
    assert more == NodeTasks(node, p, root);
    var (log', items) := Step(h, Copy, log, ItemOf(st, Fix(s)));
    assert log' == log + [p] && items == [Node(p, root)];
    assert ObjBytes(Copy, h[p]) == SIZEOF_AST_REF + TreeBytes(Copy, root);
  }

  lemma OtherCounted(h: Heap, st: Store, s: Slot, log: seq<nat>)
    requires TaskOk(h, st, Fix(s)) && st.xlat.Keys == Elems(log)
    requires var v := st.cells[s];
             v.StrV? || !(v.ArrV? || v.AstV?) || v.p in st.xlat || (v.AstV? && !Kept(h[v.p].root))
    ensures StepCounted(h, st, Fix(s), log)
  {
    hide CopyTable, CopyRef, TableItems, Kept;
    assert [Fix(s)][1..] == [];
  }

  lemma TaskCounted(h: Heap, st: Store, task: Task, log: seq<nat>)
    requires Bounded(st) && HeapOk(h) && TaskOk(h, st, task) && st.xlat.Keys == Elems(log)
    ensures StepCounted(h, st, task, log)
  {
    hide StepCounted, Kept, Bounded, HeapOk;
    match task
    case Sub(s, owner, a) => SubCounted(h, st, s, owner, a, log);
    case Fix(s) =>
      var v := st.cells[s];
      if v.ArrV? && v.p !in st.xlat {
        TableCounted(h, st, s, v.p, log);
      } else if v.AstV? && v.p !in st.xlat && Kept(h[v.p].root) {
        RefCounted(h, st, s, v.p, log);
      } else {
        OtherCounted(h, st, s, log);
      }
  }

  /** What is left to do after a step is, seen as items, what is left of the walk. */
  lemma RestItems(h: Heap, st: Store, work: seq<Task>)
    requires work != [] && Inv(h, st, work)
    ensures var (st', more) := PStep(h, st, work[0]);
            ItemsOf(st', more + work[1..]) == ItemsOf(st', more) + ItemsOf(st, work[1..])
  {
    var (st', more) := PStep(h, st, work[0]);
    assert TaskOk(h, st, work[0]);
    StepLeavesCells(h, st, work[0]);
    WaitSetOk(h, st, work[1..]);
    hide PStep, Bounded, ObjsImaged, NodesImaged, RootsImaged;
    ItemsStay(h, st, st', work[1..]);
    ItemsAppend(st', more, work[1..]);
  }

  lemma WalkFollows(h: Heap, st: Store, work: seq<Task>, log: seq<nat>)
    requires work != [] && Inv(h, st, work) && st.xlat.Keys == Elems(log)
    ensures var (st', more) := PStep(h, st, work[0]);
            && ItemOk(h, ItemOf(st, work[0]))
            && WorkOk(h, ItemsOf(st, work)) && WorkOk(h, ItemsOf(st', more + work[1..]))
            && st'.xlat.Keys == Elems(Step(h, Copy, log, ItemOf(st, work[0])).0)
            && Walk(h, Copy, log, ItemsOf(st, work))
               == Walk(h, Copy, Step(h, Copy, log, ItemOf(st, work[0])).0, ItemsOf(st', more + work[1..]))
  {
    var (st', more) := PStep(h, st, work[0]);
    FirstTask(h, st, work);
    assert Bounded(st) && TasksOk(h, st, work);
    TaskCounted(h, st, work[0], log);
    RestItems(h, st, work);
    StepKeeps(h, st, work);
    assert TasksOk(h, st', more + work[1..]);
    hide PStep, Inv, Bounded, TaskOk, HeapOk;
    ItemsOk(h, st, work);
    ItemsOk(h, st', more + work[1..]);
    hide TasksOk, Step;
    var items := ItemsOf(st, work);
    assert items[0] == ItemOf(st, work[0]) && items[1..] == ItemsOf(st, work[1..]);
    WalkUnfold(h, Copy, log, items);
    var (log', uncovered) := Step(h, Copy, log, items[0]);
    var next := uncovered + items[1..];
    if ItemsOf(st', more) != uncovered {
      WalkUnfold(h, Copy, log', next);
      assert next[0] == uncovered[0] && next[1..] == items[1..];
    }
  }

  /** Where the arena ends: what was logged since, plus the nodes that were pending. */
  lemma {:induction false} RunSizes(h: Heap, st: Store, work: seq<Task>, log: seq<nat>)
    requires Inv(h, st, work) && st.xlat.Keys == Elems(log) && forall p :: p in log ==> p in h
    ensures HeapOk(h) && WorkOk(h, ItemsOf(st, work))
    ensures var log' := Walk(h, Copy, log, ItemsOf(st, work));
            && PRun(h, st, work).xlat.Keys == Elems(log')
            && PRun(h, st, work).used + LogBytes(Copy, h, log) == st.used + LogBytes(Copy, h, log') + TaskBytes(work)
    decreases h.Keys - st.xlat.Keys, TasksWeight(work)
  {
    hide Inv, PStep;
    if work == [] {
      InvBounded(h, st, work);
      return;
    }
    var (st', more) := PStep(h, st, work[0]);
    PRunUnfold(h, st, work);
    WalkFollows(h, st, work, log);
    StepKeeps(h, st, work);
    var log' := Step(h, Copy, log, ItemOf(st, work[0])).0;
    StepBytes(h, st, work, log);
    RunSizes(h, st', more + work[1..], log');
  }

  lemma StepBytes(h: Heap, st: Store, work: seq<Task>, log: seq<nat>)
    requires work != [] && Inv(h, st, work) && st.xlat.Keys == Elems(log) && forall p :: p in log ==> p in h
    requires ItemOk(h, ItemOf(st, work[0]))
    ensures var (st', more) := PStep(h, st, work[0]); var log' := Step(h, Copy, log, ItemOf(st, work[0])).0;
            && (forall p :: p in log' ==> p in h)
            && st'.used + TaskBytes(more + work[1..]) + LogBytes(Copy, h, log) ==
                 st.used + TaskBytes(work) + LogBytes(Copy, h, log')
  {
    FirstTask(h, st, work);
    InvBounded(h, st, work);
    hide Inv, PStep, HeapOk, Bounded;
    TaskCounted(h, st, work[0], log);
    StepOk(h, Copy, log, ItemOf(st, work[0]));
    var (st', more) := PStep(h, st, work[0]);
    var log' := Step(h, Copy, log, ItemOf(st, work[0])).0;
    ItemsAppend(st', more, work[1..]);
    ItemsAppend(st', [work[0]], work[1..]);
    assert work == [work[0]] + work[1..];
    if log' != log { assert log'[..|log|] == log; }
  }

  lemma {:induction false} RootItemsMatch(st: Store, i: nat)
    requires i <= |st.roots| && forall j: nat :: i <= j < |st.roots| ==>
               Root(j) in st.cells && st.cells[Root(j)] == st.roots[j]
    ensures ItemsOf(st, RootTasks(i, |st.roots|)) == RootItems(st.roots[i..])
    ensures TaskBytes(RootTasks(i, |st.roots|)) == 0
    decreases |st.roots| - i
  {
    if i < |st.roots| {
      RootItemsMatch(st, i + 1);
      assert RootTasks(i, |st.roots|)[1..] == RootTasks(i + 1, |st.roots|);
      assert RootItems(st.roots[i..]) == [Val(st.roots[i])] + RootItems(st.roots[i + 1..]);
    }
  }

  /** The pass takes from the arena exactly what the walk weighs, and its translation table
      holds exactly the objects of the walk. */
  lemma PersistTakes(h: Heap, base: nat, header: nat, roots: seq<Zval>)
    requires Given(h, header, roots)
    ensures WorkOk(h, RootItems(roots))
    ensures Persist(h, base, header, roots).used == header + Taken(h, RootItems(roots))
    ensures Persist(h, base, header, roots).xlat.Keys == Elems(Walk(h, Copy, [], RootItems(roots)))
  {
    hide Inv, PRun;
    var st := Start(base, header, roots);
    StartInv(h, base, header, roots);
    RootItemsMatch(st, 0);
    assert roots[0..] == roots;
    RunSizes(h, st, RootTasks(0, |roots|), []);
  }

  /** The measured size is enough for the copy unless a copied expression holds a childless
      node; equal sizes mean that every expression is of a kept kind and unshared. */
  lemma MeasuredIsEnough(h: Heap, base: nat, header: nat, roots: seq<Zval>)
    requires Given(h, header, roots)
    ensures WorkOk(h, RootItems(roots))
    ensures var end, measured := Persist(h, base, header, roots).used, Measured(h, RootItems(roots));
            && (NoChildlessCopied(h, RootItems(roots)) ==>
                  end <= header + measured
                  && (end == header + measured <==> ExpressionsKeptUnshared(h, RootItems(roots))))
            && (measured < WRAPPED ==> (end <= header + measured <==> NoChildlessCopied(h, RootItems(roots))))
  {
    PersistTakes(h, base, header, roots);
    if NoChildlessCopied(h, RootItems(roots)) { SizeBound(h, RootItems(roots)); }
    if Measured(h, RootItems(roots)) < WRAPPED { SizeBoundExact(h, RootItems(roots)); }
  }

  // ---------------------------------------------------------------- the block allocated

  /**
   emalloc(memory_used + 4096), computed in 32 bits; the script starts at the first multiple of 64 in the
   block.  While the total measured size stays
   4096 below 2^32 there is room for the copy, wherever the block begins, exactly when no copied
   expression holds a childless node; from there on there is none for a copy that takes all of what
   was measured.
   */
  lemma BlockIsEnough(h: Heap, base: nat, header: nat, roots: seq<Zval>)
    requires Given(h, header, roots)
    ensures WorkOk(h, RootItems(roots))
    ensures var end, total := Persist(h, base, header, roots).used, header + Measured(h, RootItems(roots));
            var enough := end + 63 <= (total % 0x1_0000_0000 + 4096) % 0x1_0000_0000;
            && (total + 4096 < 0x1_0000_0000 ==> (enough <==> NoChildlessCopied(h, RootItems(roots))))
            && (NoChildlessCopied(h, RootItems(roots)) && ExpressionsKeptUnshared(h, RootItems(roots)) ==>
                  (enough <==> total + 4096 < 0x1_0000_0000))
  {
    hide Persist, Measured, Walk, NoChildlessCopied, ExpressionsKeptUnshared, RootItems;
    MeasuredIsEnough(h, base, header, roots);
    if !NoChildlessCopied(h, RootItems(roots)) { ChildlessTakes(h, base, header, roots); }
  }

  /** A childless node costs 2^35 bytes at once. */
  lemma ChildlessTakes(h: Heap, base: nat, header: nat, roots: seq<Zval>)
    requires Given(h, header, roots) && WorkOk(h, RootItems(roots)) && !NoChildlessCopied(h, RootItems(roots))
    ensures Persist(h, base, header, roots).used >= header + WRAPPED
  {
    hide Persist, Walk;
    PersistTakes(h, base, header, roots);
    LogExcess(h, Walk(h, Copy, [], RootItems(roots)));
  }
}
