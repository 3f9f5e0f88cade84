/**
 What copying guarantees once the whole pass is done.
 */
module CopyTheorems {
  import opened ZendGraph
  import opened Arena
  import opened PersistCopy
  import opened CopyIso

  /** zend_accel_script_persist: the script structure takes the first header bytes, and the
      caller's values are its root slots. */
  function Start(base: nat, header: nat, roots: seq<Zval>): Store {
    Store(base, header, map[], map[], map i: nat | i < |roots| :: Root(i) := roots[i], map[], roots)
  }

  /** The root slots from i on, in order. */
  function RootTasks(i: nat, n: nat): seq<Task>
    requires i <= n
    decreases n - i
  {
    if i == n then [] else [Fix(Root(i))] + RootTasks(i + 1, n)
  }

  function Persist(h: Heap, base: nat, header: nat, roots: seq<Zval>): Store {
    PRun(h, Start(base, header, roots), RootTasks(0, |roots|))
  }

  ghost predicate Given(h: Heap, header: nat, roots: seq<Zval>) {
    HeapOk(h) && header > 0 && header % 8 == 0 && forall i :: 0 <= i < |roots| ==> ValOk(h, roots[i])
  }

  lemma {:induction false} RootTasksReady(i: nat, n: nat)
    requires i <= n
    ensures Uniq(RootTasks(i, n))
    ensures forall s :: s in WaitSet(RootTasks(i, n)) <==> s.Root? && i <= s.i < n
    ensures forall t :: t in RootTasks(i, n) ==> t.Fix? && t.s.Root? && t.s.i < n
    decreases n - i
  {
    if i < n {
      RootTasksReady(i + 1, n);
      WaitSetOne(Fix(Root(i)));
      WaitSetAppend([Fix(Root(i))], RootTasks(i + 1, n));
    }
  }

  lemma StartTasks(h: Heap, base: nat, header: nat, roots: seq<Zval>)
    requires Given(h, header, roots)
    ensures TasksOk(h, Start(base, header, roots), RootTasks(0, |roots|))
  {
    hide WaitSet, Uniq, RootTasks, HeapOk;
    var st, work := Start(base, header, roots), RootTasks(0, |roots|);
    RootTasksReady(0, |roots|);
    forall i | 0 <= i < |work| ensures TaskOk(h, st, work[i]) { assert work[i] in work; }
  }

  lemma StartRoots(h: Heap, base: nat, header: nat, roots: seq<Zval>)
    ensures RootsImaged(h, Start(base, header, roots), RootTasks(0, |roots|))
  {
    hide WaitSet, Uniq, RootTasks, Translated;
    RootTasksReady(0, |roots|);
  }

  lemma StartInv(h: Heap, base: nat, header: nat, roots: seq<Zval>)
    requires Given(h, header, roots)
    ensures Inv(h, Start(base, header, roots), RootTasks(0, |roots|))
  {
    hide WaitSet, Uniq, RootTasks, HeapOk, RootsImaged, TasksOk, Depicted, NodeAt;
    StartTasks(h, base, header, roots);
    StartRoots(h, base, header, roots);
    RootTasksReady(0, |roots|);
  }

  // ---------------------------------------------------------------- isomorphism

  /** The tree copied to offset o is the tree a, node by node, with every value translated. */
  ghost predicate TreeAt(h: Heap, st: Store, o: nat, a: Ast)
    decreases a, 0
  {
    && o in st.objs && st.objs[o] == NodeShape(a)
    && match a
       case Absent => false
       case ValNode(_, v) => NodeVal(o) in st.cells && Translated(h, st.xlat, v, st.cells[NodeVal(o)])
       case Inner(_, kids) => forall i: nat :: i < |kids| ==>
              Child(o, i) in st.cells
              && ChildTreeAt(h, st, st.cells[Child(o, i)], kids[i])
  }

  ghost predicate ChildTreeAt(h: Heap, st: Store, c: Zval, a: Ast)
    decreases a, 1
  {
    if a.Absent? then c == Ptr(0)
    else c.Ptr? && c.p >= st.base && TreeAt(h, st, c.p - st.base, a)
  }

  lemma {:induction false} CopiedTree(h: Heap, st: Store, o: nat)
    requires NodesImaged(h, st, [], {}) && o in st.from
    ensures TreeAt(h, st, o, st.from[o])
    decreases st.from[o]
  {
    var a := st.from[o];
    assert NodeAt(h, st, [], o, a);
    if a.Inner? {
      forall i: nat | i < |a.kids|
        ensures Child(o, i) in st.cells && ChildTreeAt(h, st, st.cells[Child(o, i)], a.kids[i])
      {
        assert ChildAt(st, [], Child(o, i), a.kids[i]);
        if !a.kids[i].Absent? { CopiedTree(h, st, st.cells[Child(o, i)].p - st.base); }
      }
    }
  }

  /** After the pass: every root holds its translation; every object met has an image whose
      slots all hold translations, with a kept expression's tree right behind its reference;
      and no two objects share an image. */
  lemma CopyIsIsomorphism(h: Heap, base: nat, header: nat, roots: seq<Zval>)
    requires Given(h, header, roots)
    ensures var st := Persist(h, base, header, roots);
            && (forall i: nat :: i < |roots| ==>
                 Root(i) in st.cells
                 && Translated(h, st.xlat, roots[i], st.cells[Root(i)]))
            && (forall p :: p in st.xlat ==> p in h && st.xlat[p] >= base && ObjAt(h, st, [], p, st.xlat[p] - base))
            && (forall p :: p in st.xlat && h[p].RefObj? ==>
                  Kept(h[p].root) && TreeAt(h, st, st.xlat[p] - base + SIZEOF_AST_REF, h[p].root))
            && (forall p, q :: p in st.xlat && q in st.xlat && st.xlat[p] == st.xlat[q] ==> p == q)
  {
    hide TreeAt, Persist, Inv, ObjAt;
    var st := Persist(h, base, header, roots);
    PersistInv(h, base, header, roots);
    forall i: nat | i < |roots| ensures Root(i) in st.cells && Translated(h, st.xlat, roots[i], st.cells[Root(i)]) {
      RootTranslated(h, st, i);
    }
    forall p | p in st.xlat
      ensures p in h && st.xlat[p] >= base && ObjAt(h, st, [], p, st.xlat[p] - base)
      ensures h[p].RefObj? ==> Kept(h[p].root) && TreeAt(h, st, st.xlat[p] - base + SIZEOF_AST_REF, h[p].root)
    {
      ObjDepicted(h, st, p);
    }
    NoSharedImage(h, st);
  }

  lemma RootTranslated(h: Heap, st: Store, i: nat)
    requires Inv(h, st, []) && i < |st.roots|
    ensures Root(i) in st.cells && Translated(h, st.xlat, st.roots[i], st.cells[Root(i)])
  {
    assert Good(h, st, [], Root(i), st.roots[i]);
  }

  lemma ObjDepicted(h: Heap, st: Store, p: nat)
    requires Inv(h, st, []) && p in st.xlat
    ensures p in h && st.xlat[p] >= st.base && ObjAt(h, st, [], p, st.xlat[p] - st.base)
    ensures h[p].RefObj? ==> Kept(h[p].root) && TreeAt(h, st, st.xlat[p] - st.base + SIZEOF_AST_REF, h[p].root)
  {
    hide TreeAt, TableAt;
    assert Depicted(h, st, [], p);
    if h[p].RefObj? { CopiedTree(h, st, st.xlat[p] - st.base + SIZEOF_AST_REF); }
  }

  lemma NoSharedImage(h: Heap, st: Store)
    requires Inv(h, st, [])
    ensures forall p, q :: p in st.xlat && q in st.xlat && st.xlat[p] == st.xlat[q] ==> p == q
  {
  }

  lemma PersistInv(h: Heap, base: nat, header: nat, roots: seq<Zval>)
    requires Given(h, header, roots)
    ensures var st := Persist(h, base, header, roots);
            Inv(h, st, []) && st.base == base && st.roots == roots
  {
    hide Inv, PRun;
    StartInv(h, base, header, roots);
    RunKeeps(h, Start(base, header, roots), RootTasks(0, |roots|));
    RunFrame(h, Start(base, header, roots), RootTasks(0, |roots|));
  }

  lemma {:induction false} RunFrame(h: Heap, st: Store, work: seq<Task>)
    ensures PRun(h, st, work).base == st.base && PRun(h, st, work).roots == st.roots
    decreases h.Keys - st.xlat.Keys, TasksWeight(work)
  {
    if work != [] {
      PRunUnfold(h, st, work);
      var (st', more) := PStep(h, st, work[0]);
      StepFrame(h, st, work[0]);
      hide PStep;
      RunFrame(h, st', more + work[1..]);
    }
  }

  lemma StepFrame(h: Heap, st: Store, task: Task)
    ensures PStep(h, st, task).0.base == st.base && PStep(h, st, task).0.roots == st.roots
  {
  }

  /** Two pointers lead to one copy exactly when they led to one object. */
  lemma SharingPreserved(h: Heap, base: nat, header: nat, roots: seq<Zval>, v: Zval, v': Zval, w: Zval, w': Zval)
    requires Given(h, header, roots)
    requires var xlat := Persist(h, base, header, roots).xlat; Translated(h, xlat, v, w) && Translated(h, xlat, v', w')
    requires (v.StrV? && v.p != 0) || v.ArrV? || (v.AstV? && w.AstV?)
    requires (v'.StrV? && v'.p != 0) || v'.ArrV? || (v'.AstV? && w'.AstV?)
    ensures w.p == w'.p <==> v.p == v'.p
  {
    CopyIsIsomorphism(h, base, header, roots);
  }
}
