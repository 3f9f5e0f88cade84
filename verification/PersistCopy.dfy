/**
 The copying pass: zend_persist_zval moves every value into the arena, rewriting slots from
 process addresses to arena addresses through the translation table.
 */
module PersistCopy {
  import opened ZendGraph
  import opened Arena

  /** ZCG(mem) is base + used.  For specification, from records which syntax node each copied
      node was copied from, and roots the caller's values as given. */
  datatype Store = Store(base: nat, used: nat, xlat: map<nat, nat>, objs: map<nat, AObj>, cells: map<Slot, Zval>,
                         from: map<nat, Ast>, roots: seq<Zval>)

  /** Work left: a slot that still holds a process address, or a node whose address is to be
      stored in a child slot. */
  datatype Task = Fix(s: Slot) | Sub(s: Slot, owner: nat, a: Ast)

  /** The bump allocation of _opkit_shared_memdup_put. */
  function CopyString(st: Store, p: nat, raw: seq<byte>): Store {
    st.(used := st.used + Aligned(|raw|), xlat := st.xlat[p := st.base + st.used],
        objs := st.objs + map[st.used := AString(true, raw)])
  }

  function TableTasks(area: nat, bs: seq<Bucket>, i: nat): seq<Task>
    requires i <= |bs|
    decreases |bs| - i
  {
    if i == |bs| then []
    else (if bs[i].val.Undef? then [] else (if bs[i].key != 0 then [Fix(Key(area, i))] else []) + [Fix(Elem(area, i))])
         + TableTasks(area, bs, i + 1)
  }

  /** The pointer fields of a bucket area, as memcpy leaves them. */
  function AreaCells(area: nat, bs: seq<Bucket>): (m: map<Slot, Zval>)
    ensures forall i: nat :: i < |bs| ==>
              && Key(area, i) in m && m[Key(area, i)] == StrV(bs[i].key)
              && Elem(area, i) in m && m[Elem(area, i)] == bs[i].val
    ensures forall s :: s in m ==> (s.Key? || s.Elem?) && s.area == area && s.i < |bs|
  {
    (map i: nat | i < |bs| :: Key(area, i) := StrV(bs[i].key)) + (map i: nat | i < |bs| :: Elem(area, i) := bs[i].val)
  }

  function AreaOffset(header: nat, t: Table): nat {
    header + SIZEOF_ARRAY + 4 * KeptHashSize(t)
  }

  /** The slots and objects of a freshly copied table; an empty one keeps no area. */
  function TableCells(base: nat, header: nat, t: Table): map<Slot, Zval> {
    if t.buckets == [] then map[ArData(header) := Ptr(UNINITIALIZED_BUCKET)]
    else map[ArData(header) := Ptr(base + AreaOffset(header, t))] + AreaCells(AreaOffset(header, t), t.buckets)
  }

  function TableObjs(header: nat, t: Table): map<nat, AObj> {
    if t.buckets == [] then map[header := AHeader(true, t.packed, 0)]
    else map[header := AHeader(false, t.packed, |t.buckets|),
             AreaOffset(header, t) := AArea(t.packed, 4 * KeptHashSize(t), |t.buckets|)]
  }

  /** The array header, then at once its data. */
  function CopyTable(st: Store, p: nat, t: Table): (Store, seq<Task>) {
    (st.(xlat := st.xlat[p := st.base + st.used],
         objs := st.objs + TableObjs(st.used, t),
         cells := st.cells + TableCells(st.base, st.used, t),
         used := st.used + SIZEOF_ARRAY + DataBytes(t)),
     TableTasks(AreaOffset(st.used, t), t.buckets, 0))
  }

  function KidTasks(node: nat, owner: nat, kids: seq<Ast>, i: nat): seq<Task>
    requires i <= |kids|
    decreases |kids| - i
  {
    if i == |kids| then []
    else (if kids[i].Absent? then [] else [Sub(Child(node, i), owner, kids[i])]) + KidTasks(node, owner, kids, i + 1)
  }

  function ChildCells(node: nat, n: nat): (m: map<Slot, Zval>)
    ensures forall i: nat :: i < n ==> Child(node, i) in m
    ensures forall s :: s in m ==> s.Child? && s.node == node && s.i < n && m[s] == Ptr(0)
  {
    map i: nat | i < n :: Child(node, i) := Ptr(0)
  }

  function NodeCells(node: nat, a: Ast): map<Slot, Zval> {
    match a
    case Absent => map[]
    case ValNode(_, v) => map[NodeVal(node) := v]
    case Inner(_, kids) => ChildCells(node, |kids|)
  }

  function NodeShape(a: Ast): AObj {
    match a
    case Absent => ARef
    case ValNode(isConstant, _) => AZvalNode(isConstant)
    case Inner(kind, kids) => AInner(kind, |kids|)
  }

  function NodeTasks(node: nat, owner: nat, a: Ast): seq<Task> {
    match a
    case Absent => []
    case ValNode(_, _) => [Fix(NodeVal(node))]
    case Inner(_, kids) => KidTasks(node, owner, kids, 0)
  }

  /** One node of zend_persist_ast, placed at the current end of the arena. */
  function CopyNode(st: Store, owner: nat, a: Ast): (Store, seq<Task>) {
    (st.(used := st.used + PersistNodeBytes(a),
         objs := st.objs + map[st.used := NodeShape(a)],
         cells := st.cells + NodeCells(st.used, a),
         from := st.from + map[st.used := a]),
     NodeTasks(st.used, owner, a))
  }

  function RefObjs(off: nat, root: Ast): map<nat, AObj> {
    map[off := ARef, off + SIZEOF_AST_REF := NodeShape(root)]
  }

  /** zend_ast_ref first; the root node follows where the arena ends then, and its address
      is not stored anywhere. */
  function CopyRef(st: Store, p: nat, root: Ast): (Store, seq<Task>) {
    var node := st.used + SIZEOF_AST_REF;
    (st.(used := node + PersistNodeBytes(root),
         xlat := st.xlat[p := st.base + st.used],
         objs := st.objs + RefObjs(st.used, root),
         cells := st.cells + NodeCells(node, root),
         from := st.from + map[node := root]),
     NodeTasks(node, p, root))
  }

  function Put(st: Store, s: Slot, v: Zval): Store {
    st.(cells := st.cells[s := v])
  }

  function PStep(h: Heap, st: Store, task: Task): (Store, seq<Task>) {
    match task
    case Sub(s, owner, a) =>
      var (st', more) := CopyNode(st, owner, a);
      (Put(st', s, Ptr(st.base + st.used)), more)
    case Fix(s) =>
      if s !in st.cells then (st, [])
      else match st.cells[s]
        case StrV(p) =>
          if p !in h || !h[p].StrObj? then (st, [])
          else if p in st.xlat then (Put(st, s, StrV(st.xlat[p])), [])
          else (Put(CopyString(st, p, h[p].raw), s, StrV(st.base + st.used)), [])
        case ArrV(p) =>
          if p !in h || !h[p].ArrObj? then (st, [])
          else if p in st.xlat then (Put(st, s, ArrV(st.xlat[p])), [])
          else
            var (st', more) := CopyTable(st, p, h[p].t);
            (Put(st', s, ArrV(st.base + st.used)), more)
        case AstV(p) =>
          if p !in h || !h[p].RefObj? then (st, [])
          else if p in st.xlat then (Put(st, s, AstV(st.xlat[p])), [])
          else if Kept(h[p].root) then
            var (st', more) := CopyRef(st, p, h[p].root);
            (Put(st', s, AstV(st.base + st.used)), more)
          else (Put(st, s, Null), [])
        case _ => (st, [])
  }

  // ---------------------------------------------------------------- the whole pass

  ghost function NodeCount(a: Ast): nat
    decreases a
  {
    match a
    case Absent => 0
    case ValNode(_, _) => 1
    case Inner(_, kids) => 1 + NodeCounts(kids)
  }

  ghost function NodeCounts(kids: seq<Ast>): nat
    decreases kids
  {
    if kids == [] then 0 else 1 + NodeCount(kids[0]) + NodeCounts(kids[1..])
  }

  ghost function TaskWeight(task: Task): nat {
    if task.Fix? then 1 else 1 + NodeCount(task.a)
  }

  ghost function TasksWeight(work: seq<Task>): nat {
    if work == [] then 0 else TaskWeight(work[0]) + TasksWeight(work[1..])
  }

  lemma {:induction false} TasksWeightAppend(a: seq<Task>, b: seq<Task>)
    ensures TasksWeight(a + b) == TasksWeight(a) + TasksWeight(b)
  {
    if a == [] { assert a + b == b; } else {
      TasksWeightAppend(a[1..], b);
      assert (a + b)[1..] == a[1..] + b;
    }
  }

  lemma {:induction false} KidTasksWeight(node: nat, owner: nat, kids: seq<Ast>, i: nat)
    requires i <= |kids|
    ensures TasksWeight(KidTasks(node, owner, kids, i)) <= NodeCounts(kids[i..])
    decreases |kids| - i
  {
    if i < |kids| {
      KidTasksWeight(node, owner, kids, i + 1);
      assert kids[i..][1..] == kids[i + 1..];
      TasksWeightAppend(if kids[i].Absent? then [] else [Sub(Child(node, i), owner, kids[i])],
                        KidTasks(node, owner, kids, i + 1));
    }
  }

  lemma PStepShrinks(h: Heap, st: Store, task: Task)
    ensures var (st', more) := PStep(h, st, task);
            var left, left' := h.Keys - st.xlat.Keys, h.Keys - st'.xlat.Keys;
            left' < left || (left' == left && TasksWeight(more) < TaskWeight(task))
  {
    match task
    case Sub(s, owner, a) =>
      if a.Inner? {
        KidTasksWeight(st.used, owner, a.kids, 0);
        assert a.kids[0..] == a.kids;
      }
    case Fix(s) =>
      if s in st.cells {
        var v := st.cells[s];
        if (v.StrV? || v.ArrV? || v.AstV?) && v.p in h && v.p !in st.xlat
          && (v.AstV? && h[v.p].RefObj? ==> Kept(h[v.p].root)) {
          assert v.p in h.Keys - st.xlat.Keys;
        }
      }
  }

  /** The recursion of zend_persist_zval and zend_persist_ast, with the call stack as work. */
  function PRun(h: Heap, st: Store, work: seq<Task>): Store
    decreases h.Keys - st.xlat.Keys, TasksWeight(work)
  {
    if work == [] then st
    else
      var (st', more) := PStep(h, st, work[0]);
      PStepShrinks(h, st, work[0]);
      TasksWeightAppend(more, work[1..]);
      PRun(h, st', more + work[1..])
  }

  lemma PRunUnfold(h: Heap, st: Store, work: seq<Task>)
    requires work != []
    ensures var (st', more) := PStep(h, st, work[0]);
            && PRun(h, st, work) == PRun(h, st', more + work[1..])
            && (h.Keys - st'.xlat.Keys < h.Keys - st.xlat.Keys
                || (h.Keys - st'.xlat.Keys == h.Keys - st.xlat.Keys
                    && TasksWeight(more + work[1..]) < TasksWeight(work)))
  {
    var (st', more) := PStep(h, st, work[0]);
    PStepShrinks(h, st, work[0]);
    TasksWeightAppend(more, work[1..]);
  }

  lemma {:induction false} PRunAppend(h: Heap, st: Store, a: seq<Task>, b: seq<Task>)
    ensures PRun(h, st, a + b) == PRun(h, PRun(h, st, a), b)
    decreases h.Keys - st.xlat.Keys, TasksWeight(a)
  {
    hide PStep;
    if a == [] {
      assert a + b == b;
      return;
    }
    var ab, step := a + b, PStep(h, st, a[0]);
    PRunUnfold(h, st, a);
    PRunUnfold(h, st, ab);
    assert step.1 + ab[1..] == step.1 + a[1..] + b;
    PRunAppend(h, step.0, step.1 + a[1..], b);
  }

  lemma PRunOne(h: Heap, st: Store, task: Task)
    ensures PRun(h, st, [task]) == PRun(h, PStep(h, st, task).0, PStep(h, st, task).1)
  {
    PRunUnfold(h, st, [task]);
    hide PStep;
    assert PStep(h, st, task).1 + [task][1..] == PStep(h, st, task).1;
  }

  lemma {:induction false} RunXlatGrows(h: Heap, st: Store, work: seq<Task>)
    ensures st.xlat.Keys <= PRun(h, st, work).xlat.Keys
    decreases h.Keys - st.xlat.Keys, TasksWeight(work)
  {
    if work != [] {
      PRunUnfold(h, st, work);
      StepXlatGrows(h, st, work[0]);
      hide PStep;
      RunXlatGrows(h, PStep(h, st, work[0]).0, PStep(h, st, work[0]).1 + work[1..]);
    }
  }

  lemma StepXlatGrows(h: Heap, st: Store, task: Task)
    ensures st.xlat.Keys <= PStep(h, st, task).0.xlat.Keys
  {
  }
}
