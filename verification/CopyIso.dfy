/**
 Copying is an isomorphism: once the pass is done, every object met has one image in the
 arena, every slot of an image holds the image of what the source slot held, and distinct
 objects have distinct images.
 */
module CopyIso {
  import opened ZendGraph
  import opened Arena
  import opened PersistCopy

  // ---------------------------------------------------------------- pending work

  ghost function WaitSet(work: seq<Task>): set<Slot> {
    if work == [] then {} else {work[0].s} + WaitSet(work[1..])
  }

  ghost predicate Waits(work: seq<Task>, s: Slot) {
    s in WaitSet(work)
  }

  /** No two tasks are about the same slot. */
  ghost predicate Uniq(work: seq<Task>) {
    work == [] || (work[0].s !in WaitSet(work[1..]) && Uniq(work[1..]))
  }

  lemma {:induction false} WaitSetAppend(a: seq<Task>, b: seq<Task>)
    ensures WaitSet(a + b) == WaitSet(a) + WaitSet(b)
    ensures Uniq(a) && Uniq(b) && WaitSet(a) !! WaitSet(b) ==> Uniq(a + b)
  {
    if a == [] {
      assert a + b == b;
    } else {
      WaitSetAppend(a[1..], b);
      assert (a + b)[1..] == a[1..] + b;
    }
  }

  lemma {:induction false} WaitSetElems(work: seq<Task>, t: Task)
    requires t in work
    ensures t.s in WaitSet(work)
    ensures forall u :: Uniq(work) && u in work && u.s == t.s ==> u == t
  {
    if work[0] != t { WaitSetElems(work[1..], t); }
    forall u | Uniq(work) && u in work && u.s == t.s ensures u == t {
      if u != work[0] && t == work[0] { WaitSetElems(work[1..], u); }
    }
  }

  lemma {:induction false} WaitSetOk(h: Heap, st: Store, work: seq<Task>)
    requires TasksOk(h, st, work)
    ensures forall s :: s in WaitSet(work) ==> s in st.cells
  {
    if work != [] { WaitSetOk(h, st, work[1..]); }
  }

  /** Popping task and pushing tasks for new slots changes what waits for no other slot. */
  lemma WaitsAfterStep(cells: set<Slot>, task: Task, rest: seq<Task>, more: seq<Task>)
    requires Uniq([task] + rest) && Uniq(more)
    requires {task.s} + WaitSet(rest) <= cells && WaitSet(more) !! cells
    ensures Uniq(more + rest) && !Waits(more + rest, task.s)
    ensures forall s :: s in cells && s != task.s ==> (Waits(more + rest, s) <==> Waits([task] + rest, s))
    ensures forall s :: s !in cells ==> (Waits(more + rest, s) <==> Waits(more, s))
    ensures Waits([task] + rest, task.s)
  {
    assert ([task] + rest)[1..] == rest;
    WaitSetAppend(more, rest);
  }

  function BucketTasks(area: nat, i: nat, b: Bucket): seq<Task> {
    if b.val.Undef? then [] else (if b.key != 0 then [Fix(Key(area, i))] else []) + [Fix(Elem(area, i))]
  }

  lemma WaitSetOne(t: Task)
    ensures WaitSet([t]) == {t.s} && Uniq([t])
  {
    assert [t][1..] == [];
  }

  lemma BucketTasksWait(area: nat, i: nat, b: Bucket)
    ensures var work := BucketTasks(area, i, b);
            && Uniq(work)
            && WaitSet(work) == if b.val.Undef? then {}
                 else (if b.key != 0 then {Key(area, i)} else {}) + {Elem(area, i)}
  {
    if !b.val.Undef? {
      WaitSetOne(Fix(Elem(area, i)));
      WaitSetOne(Fix(Key(area, i)));
      WaitSetAppend([Fix(Key(area, i))], [Fix(Elem(area, i))]);
      if b.key == 0 { assert BucketTasks(area, i, b) == [Fix(Elem(area, i))]; }
    }
  }

  /** Which slots of a fresh area wait: the live elements and their keys. */
  lemma {:induction false} TableTasksWait(area: nat, bs: seq<Bucket>, i: nat)
    requires i <= |bs|
    ensures Uniq(TableTasks(area, bs, i))
    ensures forall s :: s in WaitSet(TableTasks(area, bs, i)) <==> IsTableTask(area, bs, i, s)
    decreases |bs| - i
  {
    if i < |bs| {
      TableTasksWait(area, bs, i + 1);
      BucketTasksWait(area, i, bs[i]);
      var tail := TableTasks(area, bs, i + 1);
      assert TableTasks(area, bs, i) == BucketTasks(area, i, bs[i]) + tail;
      WaitSetAppend(BucketTasks(area, i, bs[i]), tail);
    }
  }

  lemma {:induction false} TableTasksFix(area: nat, bs: seq<Bucket>, i: nat)
    requires i <= |bs|
    ensures forall t :: t in TableTasks(area, bs, i) ==> t.Fix? && IsTableTask(area, bs, i, t.s)
    decreases |bs| - i
  {
    if i < |bs| { TableTasksFix(area, bs, i + 1); }
  }

  ghost predicate IsTableTask(area: nat, bs: seq<Bucket>, i: nat, s: Slot) {
    match s
    case Elem(a, k) => a == area && i <= k < |bs| && !bs[k].val.Undef?
    case Key(a, k) => a == area && i <= k < |bs| && !bs[k].val.Undef? && bs[k].key != 0
    case _ => false
  }

  lemma {:induction false} KidTasksWait(node: nat, owner: nat, kids: seq<Ast>, i: nat)
    requires i <= |kids|
    ensures Uniq(KidTasks(node, owner, kids, i))
    ensures forall s :: s in WaitSet(KidTasks(node, owner, kids, i)) <==>
              s.Child? && s.node == node && i <= s.i < |kids| && !kids[s.i].Absent?
    ensures forall t :: t in KidTasks(node, owner, kids, i) <==> IsKidTask(node, owner, kids, i, t)
    decreases |kids| - i
  {
    if i < |kids| {
      KidTasksWait(node, owner, kids, i + 1);
      var tail := KidTasks(node, owner, kids, i + 1);
      if kids[i].Absent? {
        assert [] + tail == tail;
      } else {
        var head := [Sub(Child(node, i), owner, kids[i])];
        assert WaitSet(head) == {Child(node, i)};
        WaitSetAppend(head, tail);
      }
    }
  }

  ghost predicate IsKidTask(node: nat, owner: nat, kids: seq<Ast>, i: nat, t: Task) {
    t.Sub? && t.s.Child? && t.s.node == node && i <= t.s.i < |kids|
      && t.a == kids[t.s.i] && !t.a.Absent? && t.owner == owner
  }

  // ---------------------------------------------------------------- images

  /**
   w is what the arena holds in place of v.  A literal, a named constant or an enum initializer is
   copied; any other expression becomes NULL.
   */
  ghost predicate Translated(h: Heap, xlat: map<nat, nat>, v: Zval, w: Zval) {
    match v
    case StrV(p) => if p == 0 then w == v else p in xlat && w == StrV(xlat[p])
    case ArrV(p) => p in xlat && w == ArrV(xlat[p])
    case AstV(p) =>
      if p !in h || !h[p].RefObj? then w == Null
      else (match h[p].root
            case ValNode(_, _) => p in xlat && w == AstV(xlat[p])
            case Inner(EnumInit, _) => p in xlat && w == AstV(xlat[p])
            case Inner(ListKind, _) => w == Null
            case Inner(OtherKind, _) => w == Null
            case Absent => w == Null)
    case _ => w == v
  }

  /** The slot holds v still, if it waits, and its translation otherwise. */
  ghost predicate Good(h: Heap, st: Store, work: seq<Task>, s: Slot, v: Zval) {
    s in st.cells && if Waits(work, s) then st.cells[s] == v else Translated(h, st.xlat, v, st.cells[s])
  }

  ghost predicate AreaAt(h: Heap, st: Store, work: seq<Task>, area: nat, t: Table) {
    && area in st.objs && st.objs[area] == AArea(t.packed, 4 * KeptHashSize(t), |t.buckets|)
    && (forall i: nat :: i < |t.buckets| ==> Good(h, st, work, Elem(area, i), t.buckets[i].val))
    && (forall i: nat :: i < |t.buckets| && !t.buckets[i].val.Undef? ==>
        Good(h, st, work, Key(area, i), StrV(t.buckets[i].key)))
  }

  ghost predicate TableAt(h: Heap, st: Store, work: seq<Task>, off: nat, t: Table) {
    && off in st.objs && st.objs[off] == AHeader(t.buckets == [], t.packed, |t.buckets|)
    && ArData(off) in st.cells && !Waits(work, ArData(off))
    && if t.buckets == [] then st.cells[ArData(off)] == Ptr(UNINITIALIZED_BUCKET)
       else var area := AreaOffset(off, t);
            st.cells[ArData(off)] == Ptr(st.base + area) && AreaAt(h, st, work, area, t)
  }

  /** The image of the object at p, at offset off. */
  ghost predicate ObjAt(h: Heap, st: Store, work: seq<Task>, p: nat, off: nat)
    requires p in h
  {
    match h[p]
    case StrObj(raw) => off in st.objs && st.objs[off] == AString(true, raw)
    case ArrObj(t) => TableAt(h, st, work, off, t)
    case RefObj(root) =>
      && off in st.objs && st.objs[off] == ARef
      && (root.ValNode? || (root.Inner? && root.kind.EnumInit?))
      && off + SIZEOF_AST_REF in st.from && st.from[off + SIZEOF_AST_REF] == root
  }

  ghost predicate ChildAt(st: Store, work: seq<Task>, s: Slot, a: Ast) {
    && s in st.cells
    && if a.Absent? then !Waits(work, s) && st.cells[s] == Ptr(0)
       else if Waits(work, s) then exists owner :: Sub(s, owner, a) in work
       else st.cells[s].Ptr? && st.cells[s].p >= st.base && st.cells[s].p - st.base in st.from
            && st.from[st.cells[s].p - st.base] == a
  }

  /** The copy at offset o of node a. */
  ghost predicate NodeAt(h: Heap, st: Store, work: seq<Task>, o: nat, a: Ast) {
    match a
    case Absent => false
    case ValNode(isConstant, v) =>
      o in st.objs && st.objs[o] == AZvalNode(isConstant) && Good(h, st, work, NodeVal(o), v)
    case Inner(kind, kids) =>
      && o in st.objs && st.objs[o] == AInner(kind, |kids|)
      && forall i: nat :: i < |kids| ==> ChildAt(st, work, Child(o, i), kids[i])
  }

  // ---------------------------------------------------------------- the invariant

  /** Nothing exists beyond the end of the arena. */
  ghost predicate Bounded(st: Store) {
    && (forall s :: s in st.cells ==> Owner(s) < st.used)
    && (forall o :: o in st.objs ==> o < st.used)
    && (forall o :: o in st.from ==> o < st.used)
    && (forall p :: p in st.xlat ==> st.base <= st.xlat[p] < st.base + st.used)
    && (forall p, q :: p in st.xlat && q in st.xlat && p != q ==> st.xlat[p] != st.xlat[q])
  }

  ghost predicate TaskOk(h: Heap, st: Store, t: Task) {
    && t.s in st.cells
    && match t
       case Fix(s) => ValOk(h, st.cells[s]) && !s.Child? && !s.ArData?
       case Sub(s, owner, a) => s.Child? && !a.Absent? && AstOk(h, owner, a)
  }

  ghost predicate TasksOk(h: Heap, st: Store, work: seq<Task>) {
    forall i :: 0 <= i < |work| ==> TaskOk(h, st, work[i])
  }

  ghost predicate Depicted(h: Heap, st: Store, work: seq<Task>, p: nat)
    requires p in st.xlat
  {
    p in h && st.xlat[p] >= st.base && ObjAt(h, st, work, p, st.xlat[p] - st.base)
  }

  /** Every object met has its image; old leaves out those known before. */
  ghost predicate ObjsImaged(h: Heap, st: Store, work: seq<Task>, old_: set<nat>) {
    forall p :: p in st.xlat && p !in old_ ==> Depicted(h, st, work, p)
  }

  ghost predicate NodesImaged(h: Heap, st: Store, work: seq<Task>, old_: set<nat>) {
    forall o :: o in st.from && o !in old_ ==> NodeAt(h, st, work, o, st.from[o])
  }

  ghost predicate RootsImaged(h: Heap, st: Store, work: seq<Task>) {
    forall i: nat :: i < |st.roots| ==> Good(h, st, work, Root(i), st.roots[i])
  }

  ghost predicate Inv(h: Heap, st: Store, work: seq<Task>) {
    && HeapOk(h) && Uniq(work) && TasksOk(h, st, work) && Bounded(st)
    && ObjsImaged(h, st, work, {}) && NodesImaged(h, st, work, {}) && RootsImaged(h, st, work)
  }

  lemma InvBounded(h: Heap, st: Store, work: seq<Task>)
    requires Inv(h, st, work)
    ensures HeapOk(h) && Bounded(st)
  {
  }

  /** The store only grows, but for the slot in hand, which is settled. */
  ghost predicate Grows(h: Heap, st: Store, st': Store, task: Task) {
    && st'.base == st.base && st'.roots == st.roots && st.used <= st'.used
    && (forall p :: p in st.xlat ==> p in st'.xlat && st'.xlat[p] == st.xlat[p])
    && (forall o :: o in st.objs ==> o in st'.objs && st'.objs[o] == st.objs[o])
    && (forall o :: o in st.from ==> o in st'.from && st'.from[o] == st.from[o])
    && (forall s :: s in st.cells ==> s in st'.cells && (s != task.s ==> st'.cells[s] == st.cells[s]))
    && task.s in st.cells
    && match task
       case Fix(s) => Translated(h, st'.xlat, st.cells[s], st'.cells[s])
       case Sub(s, _, a) => st'.cells[s] == Ptr(st.base + st.used) && st.used in st'.from && st'.from[st.used] == a
  }

  /** Everything a step leaves alone, and what it settles. */
  ghost predicate Extends(h: Heap, st: Store, work: seq<Task>, st': Store, work': seq<Task>, task: Task) {
    && Grows(h, st, st', task)
    && (forall s :: s in st.cells && s != task.s ==> (Waits(work', s) <==> Waits(work, s)))
    && (forall t :: t in work && t != task ==> t in work')
    && Waits(work, task.s) && !Waits(work', task.s)
  }

  lemma GoodStays(h: Heap, st: Store, work: seq<Task>, st': Store, work': seq<Task>, task: Task, s: Slot, v: Zval)
    requires Extends(h, st, work, st', work', task) && Good(h, st, work, s, v)
    requires task.Fix? || !(s == task.s)
    ensures Good(h, st', work', s, v)
  {
  }

  lemma AreaStays(h: Heap, st: Store, work: seq<Task>, st': Store, work': seq<Task>, task: Task, area: nat, t: Table)
    requires Extends(h, st, work, st', work', task) && (task.Sub? ==> task.s.Child?)
    requires AreaAt(h, st, work, area, t)
    ensures AreaAt(h, st', work', area, t)
  {
    forall i: nat | i < |t.buckets| ensures Good(h, st', work', Elem(area, i), t.buckets[i].val) {
      GoodStays(h, st, work, st', work', task, Elem(area, i), t.buckets[i].val);
    }
    forall i: nat | i < |t.buckets| && !t.buckets[i].val.Undef?
      ensures Good(h, st', work', Key(area, i), StrV(t.buckets[i].key))
    {
      GoodStays(h, st, work, st', work', task, Key(area, i), StrV(t.buckets[i].key));
    }
  }

  lemma ObjStays(h: Heap, st: Store, work: seq<Task>, st': Store, work': seq<Task>, task: Task, p: nat, off: nat)
    requires Extends(h, st, work, st', work', task) && (task.Sub? ==> task.s.Child?)
    requires p in h && ObjAt(h, st, work, p, off)
    ensures ObjAt(h, st', work', p, off)
  {
    if h[p].ArrObj? && h[p].t.buckets != [] {
      AreaStays(h, st, work, st', work', task, AreaOffset(off, h[p].t), h[p].t);
    }
  }

  lemma NodeStays(h: Heap, st: Store, work: seq<Task>, st': Store, work': seq<Task>, task: Task, o: nat, a: Ast)
    requires Extends(h, st, work, st', work', task) && Uniq(work) && task in work
    requires task.Sub? <==> task.s.Child?
    requires NodeAt(h, st, work, o, a)
    ensures NodeAt(h, st', work', o, a)
  {
    if a.ValNode? {
      GoodStays(h, st, work, st', work', task, NodeVal(o), a.val);
    } else if a.Inner? {
      forall i: nat | i < |a.kids| ensures ChildAt(st', work', Child(o, i), a.kids[i]) {
        var s := Child(o, i);
        assert ChildAt(st, work, s, a.kids[i]);
        if Waits(work, s) && !a.kids[i].Absent? {
          var owner :| Sub(s, owner, a.kids[i]) in work;
          WaitSetElems(work, Sub(s, owner, a.kids[i]));
        }
      }
    }
  }

  /** What is old stays imaged; only what is new has to be looked at. */
  lemma ObjsStay(h: Heap, st: Store, work: seq<Task>, st': Store, work': seq<Task>, task: Task)
    requires Extends(h, st, work, st', work', task) && (task.Sub? ==> task.s.Child?)
    requires ObjsImaged(h, st, work, {}) && ObjsImaged(h, st', work', st.xlat.Keys)
    ensures ObjsImaged(h, st', work', {})
  {
    hide Depicted, Extends;
    forall p | p in st.xlat ensures p in st'.xlat && Depicted(h, st', work', p) {
      ImageStays(h, st, work, st', work', task, p);
    }
  }

  lemma ImageStays(h: Heap, st: Store, work: seq<Task>, st': Store, work': seq<Task>, task: Task, p: nat)
    requires Extends(h, st, work, st', work', task) && (task.Sub? ==> task.s.Child?)
    requires p in st.xlat && Depicted(h, st, work, p)
    ensures p in st'.xlat && Depicted(h, st', work', p)
  {
    hide ObjAt;
    ObjStays(h, st, work, st', work', task, p, st.xlat[p] - st.base);
  }

  lemma NodesStay(h: Heap, st: Store, work: seq<Task>, st': Store, work': seq<Task>, task: Task)
    requires Extends(h, st, work, st', work', task) && Uniq(work) && task in work
    requires task.Sub? <==> task.s.Child?
    requires NodesImaged(h, st, work, {}) && NodesImaged(h, st', work', st.from.Keys)
    ensures NodesImaged(h, st', work', {})
  {
    forall o | o in st.from ensures NodeAt(h, st', work', o, st'.from[o]) {
      NodeStays(h, st, work, st', work', task, o, st.from[o]);
    }
  }

  lemma RootsStay(h: Heap, st: Store, work: seq<Task>, st': Store, work': seq<Task>, task: Task)
    requires Extends(h, st, work, st', work', task) && (task.Sub? ==> task.s.Child?)
    requires RootsImaged(h, st, work)
    ensures RootsImaged(h, st', work')
  {
    forall i: nat | i < |st.roots| ensures Good(h, st', work', Root(i), st.roots[i]) {
      GoodStays(h, st, work, st', work', task, Root(i), st.roots[i]);
    }
  }

  // ---------------------------------------------------------------- one step

  lemma StepExtends(h: Heap, st: Store, task: Task, rest: seq<Task>, st': Store, more: seq<Task>)
    requires Uniq([task] + rest) && TasksOk(h, st, [task] + rest)
    requires Grows(h, st, st', task)
    requires Uniq(more) && WaitSet(more) !! st.cells.Keys && TasksOk(h, st', more)
    ensures Extends(h, st, [task] + rest, st', more + rest, task)
    ensures Uniq(more + rest) && TasksOk(h, st', more + rest)
    ensures forall s :: s !in st.cells ==> (Waits(more + rest, s) <==> Waits(more, s))
  {
    var work := [task] + rest;
    assert work[1..] == rest;
    WaitSetOk(h, st, work);
    WaitsAfterStep(st.cells.Keys, task, rest, more);
    assert forall t :: t in work && t != task ==> t in rest;
    forall i | 0 <= i < |rest| ensures TaskOk(h, st', rest[i]) {
      assert work[i + 1] == rest[i] && TaskOk(h, st, work[i + 1]);
      WaitSetElems(rest, rest[i]);
    }
  }

  lemma StepCloses(h: Heap, st: Store, task: Task, rest: seq<Task>, st': Store, work': seq<Task>)
    requires Inv(h, st, [task] + rest) && Extends(h, st, [task] + rest, st', work', task)
    requires task.Sub? <==> task.s.Child?
    requires Uniq(work') && TasksOk(h, st', work') && Bounded(st')
    requires ObjsImaged(h, st', work', st.xlat.Keys) && NodesImaged(h, st', work', st.from.Keys)
    ensures Inv(h, st', work')
  {
    hide Bounded, Uniq, Extends, ObjsImaged, NodesImaged, RootsImaged;
    var work := [task] + rest;
    assert work[0] == task;
    ObjsStay(h, st, work, st', work', task);
    NodesStay(h, st, work, st', work', task);
    RootsStay(h, st, work, st', work', task);
  }

  /** st' is st with new objects, slots and nodes beyond its old end, and slot s set to w. */
  ghost predicate Added(st: Store, st': Store, s: Slot, w: Zval, objs: map<nat, AObj>, cells: map<Slot, Zval>,
                        from: map<nat, Ast>) {
    && st'.base == st.base && st'.roots == st.roots && st.used < st'.used
    && st'.objs == st.objs + objs && st'.cells == (st.cells + cells)[s := w] && st'.from == st.from + from
    && (forall o :: o in objs ==> st.used <= o < st'.used)
    && (forall u :: u in cells ==> st.used <= Owner(u) < st'.used)
    && (forall o :: o in from ==> st.used <= o < st'.used)
    && s in st.cells
  }

  lemma AddedFrame(st: Store, st': Store, s: Slot, w: Zval, objs: map<nat, AObj>, cells: map<Slot, Zval>,
                   from: map<nat, Ast>)
    requires Bounded(st) && Added(st, st', s, w, objs, cells, from)
    ensures st'.base == st.base && st'.roots == st.roots && st.used < st'.used
    ensures s in st.cells && s in st'.cells && st'.cells[s] == w
    ensures forall o :: o in st.objs ==> o in st'.objs && st'.objs[o] == st.objs[o]
    ensures forall o :: o in st.from ==> o in st'.from && st'.from[o] == st.from[o]
    ensures forall u :: u in st.cells ==> u in st'.cells && (u != s ==> st'.cells[u] == st.cells[u])
    ensures forall o :: o in objs ==> o in st'.objs && st'.objs[o] == objs[o]
    ensures forall u :: u in cells ==> u !in st.cells && u in st'.cells && st'.cells[u] == cells[u]
    ensures forall o :: o in from ==> o !in st.from && o in st'.from && st'.from[o] == from[o]
  {
  }

  lemma AddedBounded(st: Store, st': Store, s: Slot, w: Zval, objs: map<nat, AObj>, cells: map<Slot, Zval>,
                     from: map<nat, Ast>, p: nat)
    requires Bounded(st) && Added(st, st', s, w, objs, cells, from)
    requires st'.xlat == st.xlat || (p !in st.xlat && st'.xlat == st.xlat[p := st.base + st.used])
    ensures Bounded(st')
  {
  }

  lemma TableTasksReady(h: Heap, st: Store, header: nat, t: Table)
    requires TableOk(h, t)
    requires forall u :: u in TableCells(st.base, header, t) ==>
               u in st.cells && st.cells[u] == TableCells(st.base, header, t)[u]
    ensures var more := TableTasks(AreaOffset(header, t), t.buckets, 0);
            && TasksOk(h, st, more) && Uniq(more) && WaitSet(more) <= TableCells(st.base, header, t).Keys
            && (forall u :: u in WaitSet(more) <==> IsTableTask(AreaOffset(header, t), t.buckets, 0, u))
  {
    hide AreaCells, TableTasks, AreaOffset, WaitSet, Uniq;
    var area := AreaOffset(header, t);
    var more, cells := TableTasks(area, t.buckets, 0), AreaCells(area, t.buckets);
    assert t.buckets != [] ==> forall u :: u in cells ==>
             u in TableCells(st.base, header, t)
             && TableCells(st.base, header, t)[u] == cells[u];
    TableTasksWait(area, t.buckets, 0);
    TableTasksFix(area, t.buckets, 0);
    forall u | IsTableTask(area, t.buckets, 0, u) ensures u in cells {}
    forall i | 0 <= i < |more| ensures TaskOk(h, st, more[i]) {
      assert more[i] in more;
      assert BucketOk(h, t, t.buckets[more[i].s.i]);
    }
  }

  /** The image of a table right after it was copied: its live slots wait. */
  lemma TableImaged(h: Heap, st: Store, work: seq<Task>, off: nat, t: Table)
    requires forall o :: o in TableObjs(off, t) ==> o in st.objs && st.objs[o] == TableObjs(off, t)[o]
    requires forall u :: u in TableCells(st.base, off, t) ==>
               && u in st.cells && st.cells[u] == TableCells(st.base, off, t)[u]
               && (Waits(work, u) <==> IsTableTask(AreaOffset(off, t), t.buckets, 0, u))
    ensures TableAt(h, st, work, off, t)
  {
    hide AreaOffset, AreaCells, Waits;
    assert ArData(off) in TableCells(st.base, off, t) && off in TableObjs(off, t);
    if t.buckets != [] {
      var area := AreaOffset(off, t);
      AreaBeyond(off, t);
      assert area in TableObjs(off, t);
      AreaImaged(h, st, work, off, t);
      hide AreaAt;
    }
  }

  lemma AreaImaged(h: Heap, st: Store, work: seq<Task>, off: nat, t: Table)
    requires t.buckets != []
    requires AreaOffset(off, t) in st.objs
    requires st.objs[AreaOffset(off, t)] == AArea(t.packed, 4 * KeptHashSize(t), |t.buckets|)
    requires forall u :: u in TableCells(st.base, off, t) ==>
               && u in st.cells && st.cells[u] == TableCells(st.base, off, t)[u]
               && (Waits(work, u) <==> IsTableTask(AreaOffset(off, t), t.buckets, 0, u))
    ensures AreaAt(h, st, work, AreaOffset(off, t), t)
  {
    hide AreaOffset, AreaCells, Waits;
    var area := AreaOffset(off, t);
    var cells := AreaCells(area, t.buckets);
    assert forall u :: u in cells ==> u in TableCells(st.base, off, t) && TableCells(st.base, off, t)[u] == cells[u];
    forall i: nat | i < |t.buckets| ensures Good(h, st, work, Elem(area, i), t.buckets[i].val) {
      assert Elem(area, i) in cells;
    }
    forall i: nat | i < |t.buckets| && !t.buckets[i].val.Undef?
      ensures Good(h, st, work, Key(area, i), StrV(t.buckets[i].key))
    {
      assert Key(area, i) in cells;
    }
  }

  lemma AreaBeyond(header: nat, t: Table)
    ensures header < AreaOffset(header, t)
    ensures t.buckets != [] ==> AreaOffset(header, t) < header + SIZEOF_ARRAY + DataBytes(t)
  {
    hide KeptHashSize;
    if t.buckets != [] { assert ElementBytes(t.packed, |t.buckets|) > 0; }
  }

  ghost predicate Settles(h: Heap, st: Store, st': Store, task: Task, w: Zval, from: map<nat, Ast>) {
    && task.s in st.cells
    && match task
       case Fix(s) => Translated(h, st'.xlat, st.cells[s], w)
       case Sub(s, _, a) => w == Ptr(st.base + st.used) && st.used in from && from[st.used] == a
  }

  lemma AddedGrows(h: Heap, st: Store, task: Task, st': Store, w: Zval,
                   objs: map<nat, AObj>, cells: map<Slot, Zval>, from: map<nat, Ast>, p: nat)
    requires Bounded(st) && Added(st, st', task.s, w, objs, cells, from)
    requires st'.xlat == st.xlat || (p !in st.xlat && st'.xlat == st.xlat[p := st.base + st.used])
    requires Settles(h, st, st', task, w, from)
    ensures Grows(h, st, st', task) && Bounded(st')
    ensures forall u :: u in cells ==> u !in st.cells
  {
    AddedFrame(st, st', task.s, w, objs, cells, from);
    AddedBounded(st, st', task.s, w, objs, cells, from, p);
    hide Bounded, Translated, Added;
  }

  /** Adding beyond the end and settling the slot in hand is a step. */
  lemma AddedExtends(h: Heap, st: Store, task: Task, rest: seq<Task>, st': Store, w: Zval,
                     objs: map<nat, AObj>, cells: map<Slot, Zval>, from: map<nat, Ast>, more: seq<Task>, p: nat)
    requires Inv(h, st, [task] + rest) && Added(st, st', task.s, w, objs, cells, from)
    requires st'.xlat == st.xlat || (p !in st.xlat && st'.xlat == st.xlat[p := st.base + st.used])
    requires Settles(h, st, st', task, w, from)
    requires Uniq(more) && WaitSet(more) <= cells.Keys && TasksOk(h, st', more)
    ensures Extends(h, st, [task] + rest, st', more + rest, task)
    ensures Uniq(more + rest) && TasksOk(h, st', more + rest) && Bounded(st')
    ensures forall u :: u in cells ==> (Waits(more + rest, u) <==> Waits(more, u))
  {
    AddedGrows(h, st, task, st', w, objs, cells, from, p);
    hide Bounded, ObjsImaged, NodesImaged, Added, Grows, Settles, Uniq;
    StepExtends(h, st, task, rest, st', more);
  }

  /** The slot is rewritten, and nothing new appears. */
  lemma PutStep(h: Heap, st: Store, s: Slot, rest: seq<Task>, w: Zval)
    requires Inv(h, st, [Fix(s)] + rest) && s in st.cells
    requires Translated(h, st.xlat, st.cells[s], w)
    ensures Inv(h, Put(st, s, w), [] + rest)
  {
    hide Depicted, NodeAt;
    assert TaskOk(h, st, ([Fix(s)] + rest)[0]);
    StepExtends(h, st, Fix(s), rest, Put(st, s, w), []);
    StepCloses(h, st, Fix(s), rest, Put(st, s, w), [] + rest);
  }

  /** All that has to be shown of a step that adds objects, slots and nodes. */
  ghost predicate Ready(h: Heap, st: Store, task: Task, st': Store, w: Zval,
                        objs: map<nat, AObj>, cells: map<Slot, Zval>, from: map<nat, Ast>, more: seq<Task>, p: nat) {
    && Added(st, st', task.s, w, objs, cells, from)
    && (st'.xlat == st.xlat || (p !in st.xlat && st'.xlat == st.xlat[p := st.base + st.used]))
    && Settles(h, st, st', task, w, from)
    && Uniq(more) && WaitSet(more) <= cells.Keys && TasksOk(h, st', more)
  }

  /** What is new can be seen from the new tasks alone. */
  lemma ReadyFrame(h: Heap, st: Store, task: Task, rest: seq<Task>, st': Store, w: Zval,
                   objs: map<nat, AObj>, cells: map<Slot, Zval>, from: map<nat, Ast>, more: seq<Task>, p: nat)
    requires Inv(h, st, [task] + rest) && Ready(h, st, task, st', w, objs, cells, from, more, p)
    ensures forall o :: o in objs ==> o in st'.objs && st'.objs[o] == objs[o]
    ensures forall u :: u in cells ==>
              u in st'.cells && st'.cells[u] == cells[u] && (Waits(more + rest, u) <==> Waits(more, u))
    ensures forall o :: o in from ==> o in st'.from && st'.from[o] == from[o]
    ensures forall t :: t in more ==> t in more + rest
  {
    AddedFrame(st, st', task.s, w, objs, cells, from);
    hide Settles, ObjsImaged, NodesImaged, Bounded;
    AddedExtends(h, st, task, rest, st', w, objs, cells, from, more, p);
  }

  lemma ReadyStep(h: Heap, st: Store, task: Task, rest: seq<Task>, st': Store, w: Zval,
                  objs: map<nat, AObj>, cells: map<Slot, Zval>, from: map<nat, Ast>, more: seq<Task>, p: nat)
    requires Inv(h, st, [task] + rest) && Ready(h, st, task, st', w, objs, cells, from, more, p)
    requires ObjsImaged(h, st', more + rest, st.xlat.Keys) && NodesImaged(h, st', more + rest, st.from.Keys)
    ensures Inv(h, st', more + rest)
  {
    hide ObjsImaged, NodesImaged, Bounded, Added, Settles, Uniq, WaitSet, Extends;
    assert task == ([task] + rest)[0] && TaskOk(h, st, task);
    AddedExtends(h, st, task, rest, st', w, objs, cells, from, more, p);
    StepCloses(h, st, task, rest, st', more + rest);
  }

  lemma StringReady(h: Heap, st: Store, s: Slot, rest: seq<Task>, p: nat)
    requires Inv(h, st, [Fix(s)] + rest) && s in st.cells && st.cells[s] == StrV(p)
    requires p in h && h[p].StrObj? && p !in st.xlat
    ensures var w := StrV(st.base + st.used);
            Ready(h, st, Fix(s), Put(CopyString(st, p, h[p].raw), s, w), w,
                  map[st.used := AString(true, h[p].raw)], map[], map[], [], p)
  {
    hide Inv;
    assert p != 0 && |h[p].raw| > 0 by { StringBytes(h, st, s, rest, p); }
  }

  lemma StringStep(h: Heap, st: Store, s: Slot, rest: seq<Task>, p: nat)
    requires Inv(h, st, [Fix(s)] + rest) && s in st.cells && st.cells[s] == StrV(p)
    requires p in h && h[p].StrObj? && p !in st.xlat
    ensures Inv(h, Put(CopyString(st, p, h[p].raw), s, StrV(st.base + st.used)), [] + rest)
  {
    hide Inv, Ready, NodeAt, Waits, Bounded;
    var w := StrV(st.base + st.used);
    var st' := Put(CopyString(st, p, h[p].raw), s, w);
    var objs := map[st.used := AString(true, h[p].raw)];
    StringReady(h, st, s, rest, p);
    ReadyFrame(h, st, Fix(s), rest, st', w, objs, map[], map[], [], p);
    assert st.used in objs;
    ReadyStep(h, st, Fix(s), rest, st', w, objs, map[], map[], [], p);
  }

  lemma StringBytes(h: Heap, st: Store, s: Slot, rest: seq<Task>, p: nat)
    requires Inv(h, st, [Fix(s)] + rest) && p in h && h[p].StrObj?
    ensures p != 0 && IsString(h[p].raw) && |h[p].raw| > 0
  {
    assert ObjOk(h, p);
  }

  /** What a table adds lies between the old end and the new one. */
  lemma TableBeyond(base: nat, header: nat, t: Table)
    ensures forall o :: o in TableObjs(header, t) ==> header <= o < header + SIZEOF_ARRAY + DataBytes(t)
    ensures forall u :: u in TableCells(base, header, t) ==> header <= Owner(u) < header + SIZEOF_ARRAY + DataBytes(t)
  {
    hide AreaOffset, AreaCells, DataBytes;
    AreaBeyond(header, t);
  }

  lemma TableAdded(st: Store, s: Slot, p: nat, t: Table)
    requires s in st.cells
    ensures var w := ArrV(st.base + st.used);
            Added(st, Put(CopyTable(st, p, t).0, s, w), s, w,
                  TableObjs(st.used, t), TableCells(st.base, st.used, t), map[])
  {
    hide AreaOffset, AreaCells, TableTasks, DataBytes, TableObjs, TableCells, Owner;
    TableBeyond(st.base, st.used, t);
  }

  lemma TableReady(h: Heap, st: Store, s: Slot, rest: seq<Task>, p: nat)
    requires Inv(h, st, [Fix(s)] + rest) && s in st.cells && st.cells[s] == ArrV(p)
    requires p in h && h[p].ArrObj? && p !in st.xlat
    ensures var (st1, more) := CopyTable(st, p, h[p].t); var w := ArrV(st.base + st.used);
            Ready(h, st, Fix(s), Put(st1, s, w), w, TableObjs(st.used, h[p].t),
                  TableCells(st.base, st.used, h[p].t), map[], more, p)
  {
    hide NodesImaged, ObjsImaged, Uniq, AreaOffset, TableTasks, DataBytes, WaitSet, TableObjs, TableCells, Bounded;
    var t, w := h[p].t, ArrV(st.base + st.used);
    var (st1, more) := CopyTable(st, p, t);
    var st' := Put(st1, s, w);
    assert ObjOk(h, p);
    TableAdded(st, s, p, t);
    AddedFrame(st, st', s, w, TableObjs(st.used, t), TableCells(st.base, st.used, t), map[]);
    TableTasksReady(h, st', st.used, t);
  }

  lemma TableStep(h: Heap, st: Store, s: Slot, rest: seq<Task>, p: nat)
    requires Inv(h, st, [Fix(s)] + rest) && s in st.cells && st.cells[s] == ArrV(p)
    requires p in h && h[p].ArrObj? && p !in st.xlat
    ensures var (st', more) := CopyTable(st, p, h[p].t);
            Inv(h, Put(st', s, ArrV(st.base + st.used)), more + rest)
  {
    hide Inv, Ready, AreaOffset, AreaCells, TableTasks, TableAt, DataBytes, TableObjs, TableCells, IsTableTask;
    var t, w := h[p].t, ArrV(st.base + st.used);
    var (st1, more) := CopyTable(st, p, t);
    var st', objs, cells := Put(st1, s, w), TableObjs(st.used, t), TableCells(st.base, st.used, t);
    TableReady(h, st, s, rest, p);
    ReadyFrame(h, st, Fix(s), rest, st', w, objs, cells, map[], more, p);
    TableTasksWait(AreaOffset(st.used, t), t.buckets, 0);
    TableImaged(h, st', more + rest, st.used, t);
    ReadyStep(h, st, Fix(s), rest, st', w, objs, cells, map[], more, p);
  }

  lemma NodeTasksReady(h: Heap, st: Store, node: nat, owner: nat, a: Ast)
    requires !a.Absent? && AstOk(h, owner, a)
    requires forall u :: u in NodeCells(node, a) ==> u in st.cells && st.cells[u] == NodeCells(node, a)[u]
    ensures var more := NodeTasks(node, owner, a);
            Uniq(more) && WaitSet(more) <= NodeCells(node, a).Keys && TasksOk(h, st, more)
  {
    if a.ValNode? {
      WaitSetOne(Fix(NodeVal(node)));
      assert NodeVal(node) in NodeCells(node, a);
    } else {
      hide KidTasks, WaitSet;
      KidTasksWait(node, owner, a.kids, 0);
      var more := KidTasks(node, owner, a.kids, 0);
      forall i | 0 <= i < |more| ensures TaskOk(h, st, more[i]) {
        assert more[i] in more;
        KidAt(h, owner, a.kids, more[i].s.i);
      }
    }
  }

  /** The image of a node right after it was copied: its value or its children wait. */
  lemma NodeImaged(h: Heap, st: Store, work: seq<Task>, node: nat, owner: nat, a: Ast)
    requires !a.Absent? && node in st.objs && st.objs[node] == NodeShape(a)
    requires forall u :: u in NodeCells(node, a) ==>
               && u in st.cells && st.cells[u] == NodeCells(node, a)[u]
               && (Waits(work, u) <==> Waits(NodeTasks(node, owner, a), u))
    requires forall t :: t in NodeTasks(node, owner, a) ==> t in work
    ensures NodeAt(h, st, work, node, a)
  {
    hide KidTasks;
    if a.ValNode? {
      WaitSetOne(Fix(NodeVal(node)));
      assert NodeVal(node) in NodeCells(node, a);
    } else {
      hide WaitSet;
      KidTasksWait(node, owner, a.kids, 0);
      forall i: nat | i < |a.kids| ensures ChildAt(st, work, Child(node, i), a.kids[i]) {
        assert Child(node, i) in NodeCells(node, a);
        if !a.kids[i].Absent? {
          assert IsKidTask(node, owner, a.kids, 0, Sub(Child(node, i), owner, a.kids[i]));
          assert Sub(Child(node, i), owner, a.kids[i]) in work;
        }
      }
    }
  }

  lemma NodeAdded(st: Store, s: Slot, owner: nat, a: Ast)
    requires s in st.cells && !a.Absent?
    ensures var w := Ptr(st.base + st.used);
            Added(st, Put(CopyNode(st, owner, a).0, s, w), s, w,
                  map[st.used := NodeShape(a)], NodeCells(st.used, a), map[st.used := a])
  {
    hide NodeTasks, ChildCells, PersistNodeBytes, NodeShape;
  }

  lemma SubReady(h: Heap, st: Store, s: Slot, owner: nat, a: Ast)
    requires Bounded(st) && TaskOk(h, st, Sub(s, owner, a))
    ensures var (st1, more) := CopyNode(st, owner, a); var w := Ptr(st.base + st.used);
            Ready(h, st, Sub(s, owner, a), Put(st1, s, w), w, map[st.used := NodeShape(a)], NodeCells(st.used, a),
                  map[st.used := a], more, 0)
  {
    hide NodeTasks, NodeShape, NodeCells, WaitSet, Uniq, Bounded;
    var (st1, more) := CopyNode(st, owner, a);
    var w := Ptr(st.base + st.used);
    NodeAdded(st, s, owner, a);
    AddedFrame(st, Put(st1, s, w), s, w, map[st.used := NodeShape(a)], NodeCells(st.used, a), map[st.used := a]);
    NodeTasksReady(h, Put(st1, s, w), st.used, owner, a);
  }

  lemma SubStep(h: Heap, st: Store, s: Slot, owner: nat, a: Ast, rest: seq<Task>)
    requires Inv(h, st, [Sub(s, owner, a)] + rest)
    ensures var (st', more) := CopyNode(st, owner, a);
            Inv(h, Put(st', s, Ptr(st.base + st.used)), more + rest)
  {
    var task, node, w := Sub(s, owner, a), st.used, Ptr(st.base + st.used);
    var (st1, more) := CopyNode(st, owner, a);
    var st', objs, cells, from := Put(st1, s, w), map[node := NodeShape(a)], NodeCells(node, a), map[node := a];
    assert TaskOk(h, st, ([task] + rest)[0]);
    SubReady(h, st, s, owner, a);
    hide Inv, Ready, NodeTasks, NodeCells, NodeShape, NodeAt, Waits;
    ReadyFrame(h, st, task, rest, st', w, objs, cells, from, more, 0);
    assert node in objs;
    NodeImaged(h, st', more + rest, node, owner, a);
    ReadyStep(h, st, task, rest, st', w, objs, cells, from, more, 0);
  }

  lemma RefBeyond(off: nat, root: Ast)
    requires !root.Absent?
    ensures var node := off + SIZEOF_AST_REF; var end := node + PersistNodeBytes(root);
            && off < node < end && (forall o :: o in RefObjs(off, root) ==> off <= o < end)
            && forall u :: u in NodeCells(node, root) ==> off <= Owner(u) < end
  {
    hide ChildCells, PersistNodeBytes, NodeShape;
  }

  lemma RefAdded(st: Store, s: Slot, p: nat, root: Ast)
    requires s in st.cells && !root.Absent?
    ensures var w := AstV(st.base + st.used); var node := st.used + SIZEOF_AST_REF;
            Added(st, Put(CopyRef(st, p, root).0, s, w), s, w,
                  RefObjs(st.used, root), NodeCells(node, root), map[node := root])
  {
    hide NodeTasks, NodeCells, RefObjs, PersistNodeBytes, Owner;
    RefBeyond(st.used, root);
  }

  lemma RefReady(h: Heap, st: Store, s: Slot, p: nat)
    requires Bounded(st) && HeapOk(h) && s in st.cells && st.cells[s] == AstV(p)
    requires p in h && h[p].RefObj? && Kept(h[p].root) && p !in st.xlat
    ensures var root := h[p].root; var (st1, more) := CopyRef(st, p, root);
            var w := AstV(st.base + st.used); var node := st.used + SIZEOF_AST_REF;
            Ready(h, st, Fix(s), Put(st1, s, w), w, RefObjs(st.used, root),
                  NodeCells(node, root), map[node := root], more, p)
  {
    hide NodeTasks, NodeShape, NodeCells, WaitSet, Uniq, Bounded, RefObjs;
    var root := h[p].root;
    var (st1, more) := CopyRef(st, p, root);
    var w, node := AstV(st.base + st.used), st.used + SIZEOF_AST_REF;
    assert ObjOk(h, p);
    RefAdded(st, s, p, root);
    AddedFrame(st, Put(st1, s, w), s, w, RefObjs(st.used, root), NodeCells(node, root), map[node := root]);
    NodeTasksReady(h, Put(st1, s, w), node, p, root);
  }

  lemma RefStep(h: Heap, st: Store, s: Slot, rest: seq<Task>, p: nat)
    requires Inv(h, st, [Fix(s)] + rest) && s in st.cells && st.cells[s] == AstV(p)
    requires p in h && h[p].RefObj? && Kept(h[p].root) && p !in st.xlat
    ensures var (st', more) := CopyRef(st, p, h[p].root);
            Inv(h, Put(st', s, AstV(st.base + st.used)), more + rest)
  {
    var root, node, w := h[p].root, st.used + SIZEOF_AST_REF, AstV(st.base + st.used);
    var (st1, more) := CopyRef(st, p, root);
    var st', objs, cells, from := Put(st1, s, w), RefObjs(st.used, root), NodeCells(node, root), map[node := root];
    assert ObjOk(h, p);
    RefReady(h, st, s, p);
    hide Inv, Ready;
    RefImaged(h, st, s, rest, p);
    hide ObjsImaged, NodesImaged, CopyRef, RefObjs, NodeCells;
    ReadyStep(h, st, Fix(s), rest, st', w, objs, cells, from, more, p);
  }

  lemma RefImaged(h: Heap, st: Store, s: Slot, rest: seq<Task>, p: nat)
    requires Inv(h, st, [Fix(s)] + rest) && HeapOk(h) && Bounded(st) && s in st.cells && st.cells[s] == AstV(p)
    requires p in h && h[p].RefObj? && Kept(h[p].root) && p !in st.xlat
    ensures var (st1, more) := CopyRef(st, p, h[p].root);
            var st' := Put(st1, s, AstV(st.base + st.used));
            ObjsImaged(h, st', more + rest, st.xlat.Keys) && NodesImaged(h, st', more + rest, st.from.Keys)
  {
    hide Inv, Bounded, Ready, NodeTasks, NodeCells, NodeShape, NodeAt, Waits, HeapOk, KidTasks, AstOk;
    var root, node, w := h[p].root, st.used + SIZEOF_AST_REF, AstV(st.base + st.used);
    var (st1, more) := CopyRef(st, p, root);
    var st', objs, cells, from := Put(st1, s, w), RefObjs(st.used, root), NodeCells(node, root), map[node := root];
    RootPresent(h, p);
    RefReady(h, st, s, p);
    ReadyFrame(h, st, Fix(s), rest, st', w, objs, cells, from, more, p);
    assert st.used in objs && node in objs && node in from;
    NodeImaged(h, st', more + rest, node, p, root);
  }

  lemma RootPresent(h: Heap, p: nat)
    requires HeapOk(h) && p in h && h[p].RefObj?
    ensures !h[p].root.Absent? && AstOk(h, p, h[p].root)
  {
    assert ObjOk(h, p);
  }

  // ---------------------------------------------------------------- the whole pass

  /** PStep, case by case. */
  lemma PStepNew(h: Heap, st: Store, s: Slot)
    requires s in st.cells
    ensures var v := st.cells[s];
            && (v.StrV? && v.p in h && h[v.p].StrObj? && v.p !in st.xlat ==>
                  PStep(h, st, Fix(s)) == (Put(CopyString(st, v.p, h[v.p].raw), s, StrV(st.base + st.used)), []))
            && (v.ArrV? && v.p in h && h[v.p].ArrObj? && v.p !in st.xlat ==>
                  PStep(h, st, Fix(s)) == (Put(CopyTable(st, v.p, h[v.p].t).0, s, ArrV(st.base + st.used)),
                                           CopyTable(st, v.p, h[v.p].t).1))
            && (v.AstV? && v.p in h && h[v.p].RefObj? && Kept(h[v.p].root) && v.p !in st.xlat ==>
                  PStep(h, st, Fix(s)) == (Put(CopyRef(st, v.p, h[v.p].root).0, s, AstV(st.base + st.used)),
                                           CopyRef(st, v.p, h[v.p].root).1))
  {
    hide CopyString, CopyTable, CopyRef, Put, Kept;
  }

  /** What a slot becomes when nothing has to be copied. */
  function Rewritten(h: Heap, xlat: map<nat, nat>, v: Zval): Zval {
    match v
    case StrV(p) => if p in xlat then StrV(xlat[p]) else v
    case ArrV(p) => if p in xlat then ArrV(xlat[p]) else v
    case AstV(p) => if p in xlat then AstV(xlat[p]) else Null
    case _ => v
  }

  lemma PStepOld(h: Heap, st: Store, s: Slot)
    requires s in st.cells && ValOk(h, st.cells[s])
    requires var v := st.cells[s];
             (v.StrV? || v.ArrV? ==> v.p in st.xlat) && (v.AstV? ==> v.p in st.xlat || !Kept(h[v.p].root))
    ensures PStep(h, st, Fix(s)) == (Put(st, s, Rewritten(h, st.xlat, st.cells[s])), [])
  {
    hide CopyString, CopyTable, CopyRef, Kept;
    assert st.cells[s := st.cells[s]] == st.cells;
  }

  lemma RewrittenIs(h: Heap, xlat: map<nat, nat>, v: Zval)
    requires HeapOk(h) && ValOk(h, v) && (v.StrV? || v.ArrV? ==> v.p in xlat)
    requires v.AstV? ==> (v.p in xlat <==> Kept(h[v.p].root))
    ensures Translated(h, xlat, v, Rewritten(h, xlat, v))
  {
    if v.AstV? { assert ObjOk(h, v.p); }
  }

  /** The slot held v; now it holds the translation of v. */
  lemma FixStep(h: Heap, st: Store, s: Slot, rest: seq<Task>)
    requires Inv(h, st, [Fix(s)] + rest) && TaskOk(h, st, Fix(s)) && HeapOk(h)
    ensures var (st', more) := PStep(h, st, Fix(s)); Inv(h, st', more + rest)
  {
    hide Inv, CopyTable, CopyRef, CopyString, Kept, PStep, Put;
    var v := st.cells[s];
    PStepNew(h, st, s);
    if v.StrV? && v.p !in st.xlat {
      StringStep(h, st, s, rest, v.p);
    } else if v.ArrV? && v.p !in st.xlat {
      TableStep(h, st, s, rest, v.p);
    } else if v.AstV? && v.p !in st.xlat && Kept(h[v.p].root) {
      RefStep(h, st, s, rest, v.p);
    } else {
      if v.AstV? && v.p in st.xlat { XlatIsKept(h, st, [Fix(s)] + rest, v.p); }
      PStepOld(h, st, s);
      RewrittenIs(h, st.xlat, v);
      PutStep(h, st, s, rest, Rewritten(h, st.xlat, v));
    }
  }

  lemma XlatIsKept(h: Heap, st: Store, work: seq<Task>, p: nat)
    requires Inv(h, st, work) && p in st.xlat
    ensures p in h && (h[p].RefObj? ==> Kept(h[p].root))
  {
    assert Depicted(h, st, work, p);
  }

  lemma FirstTask(h: Heap, st: Store, work: seq<Task>)
    requires work != [] && Inv(h, st, work)
    ensures TaskOk(h, st, work[0]) && HeapOk(h)
  {
  }

  lemma StepKeeps(h: Heap, st: Store, work: seq<Task>)
    requires work != [] && Inv(h, st, work)
    ensures var (st', more) := PStep(h, st, work[0]); Inv(h, st', more + work[1..])
  {
    hide Inv, CopyNode, Put, TaskOk, HeapOk, CopyTable, CopyRef, CopyString, Kept;
    var rest := work[1..];
    assert work == [work[0]] + rest;
    FirstTask(h, st, work);
    match work[0]
    case Fix(s) => FixStep(h, st, s, rest);
    case Sub(s, owner, a) => SubStep(h, st, s, owner, a, rest);
  }

  lemma {:induction false} RunKeeps(h: Heap, st: Store, work: seq<Task>)
    requires Inv(h, st, work)
    ensures Inv(h, PRun(h, st, work), [])
    decreases h.Keys - st.xlat.Keys, TasksWeight(work)
  {
    hide Inv, PStep;
    if work != [] {
      var (st', more) := PStep(h, st, work[0]);
      PRunUnfold(h, st, work);
      StepKeeps(h, st, work);
      RunKeeps(h, st', more + work[1..]);
    }
  }

  /** Finishing part of the work leaves the rest in order. */
  lemma {:induction false} RunPartKeeps(h: Heap, st: Store, a: seq<Task>, rest: seq<Task>)
    requires Inv(h, st, a + rest)
    ensures Inv(h, PRun(h, st, a), rest)
    decreases h.Keys - st.xlat.Keys, TasksWeight(a)
  {
    hide Inv, PStep;
    if a == [] {
      assert a + rest == rest;
    } else {
      var work := a + rest;
      var (st', more) := PStep(h, st, a[0]);
      assert work[0] == a[0];
      PRunUnfold(h, st, a);
      StepKeeps(h, st, work);
      assert more + work[1..] == more + a[1..] + rest;
      RunPartKeeps(h, st', more + a[1..], rest);
    }
  }
}
