/**
 The finished arena as an image: objects aligned and disjoint, every live slot pointing at an
 object of the right kind.  This is what serialization takes for granted.
 */
module CopyImage {
  import opened ZendGraph
  import opened Arena
  import opened PersistCopy
  import opened CopyIso
  import opened CopyTheorems
  import HashCompact

  // ---------------------------------------------------------------- slots

  ghost predicate SlotRight(st: Store, work: seq<Task>, u: Slot)
    requires u in st.cells
  {
    Waits(work, u) || Dead(st.cells, u) || PointsRight(st.base, st.objs, u, st.cells[u])
  }

  ghost predicate CellsRight(st: Store, work: seq<Task>) {
    forall u :: u in st.cells ==> SlotRight(st, work, u)
  }

  ghost predicate AllPresent(st: Store) {
    forall o :: o in st.objs ==> SlotsPresent(st.objs, st.cells, o)
  }

  /** What a settled slot keeps of the type it had. */
  ghost predicate SameSort(task: Task, v: Zval, w: Zval) {
    && (task.Fix? ==> !w.Ptr? && (v.StrV? ==> w.StrV?) && (v.Undef? ==> w.Undef?))
    && (task.Sub? ==> w.Ptr? && task.s.Child?)
  }

  lemma RightStays(st: Store, work: seq<Task>, st': Store, work': seq<Task>, task: Task, u: Slot)
    requires u in st.cells && u != task.s && SlotRight(st, work, u)
    requires u in st'.cells && st'.cells[u] == st.cells[u] && (Waits(work', u) <==> Waits(work, u))
    requires st'.base == st.base && forall o :: o in st.objs ==> o in st'.objs && st'.objs[o] == st.objs[o]
    requires forall e :: e in st.cells && e.Elem? && st.cells[e].Undef? ==> e in st'.cells && st'.cells[e].Undef?
    ensures SlotRight(st', work', u)
  {
    hide Waits;
  }

  lemma UndefStays(h: Heap, st: Store, work: seq<Task>, st': Store, work': seq<Task>, task: Task)
    requires Extends(h, st, work, st', work', task) && SameSort(task, st.cells[task.s], st'.cells[task.s])
    ensures forall e :: e in st.cells && e.Elem? && st.cells[e].Undef? ==> e in st'.cells && st'.cells[e].Undef?
  {
    hide Waits, Translated;
  }

  lemma CellsRightStep(h: Heap, st: Store, work: seq<Task>, st': Store, work': seq<Task>, task: Task)
    requires CellsRight(st, work) && Extends(h, st, work, st', work', task)
    requires SameSort(task, st.cells[task.s], st'.cells[task.s])
    requires PointsRight(st'.base, st'.objs, task.s, st'.cells[task.s])
    requires forall u :: u in st'.cells && u !in st.cells ==> SlotRight(st', work', u)
    ensures CellsRight(st', work')
  {
    UndefStays(h, st, work, st', work', task);
    hide SameSort, PointsRight, Waits, Translated;
    forall u | u in st.cells && u != task.s ensures u in st'.cells && SlotRight(st', work', u) {
      RightStays(st, work, st', work', task, u);
    }
  }

  lemma AllPresentStep(st: Store, st': Store, task: Task)
    requires AllPresent(st)
    requires forall o :: o in st.objs ==> o in st'.objs && st'.objs[o] == st.objs[o]
    requires forall u :: u in st.cells ==> u in st'.cells && (u != task.s ==> st'.cells[u] == st.cells[u])
    requires task.s in st.cells && SameSort(task, st.cells[task.s], st'.cells[task.s])
    requires task.Fix? ==> !task.s.Child? && !task.s.ArData?
    requires forall o :: o in st'.objs && o !in st.objs ==> SlotsPresent(st'.objs, st'.cells, o)
    ensures AllPresent(st')
  {
    forall o | o in st.objs ensures SlotsPresent(st'.objs, st'.cells, o) {
      assert SlotsPresent(st.objs, st.cells, o);
    }
  }

  // ---------------------------------------------------------------- layout

  /** New objects beyond the old end, apart from each other, keep the arena laid out. */
  lemma LaidOutStep(objs: map<nat, AObj>, lo: nat, hi: nat, more: map<nat, AObj>, hi': nat)
    requires LaidOut(objs, lo, hi) && LaidOut(more, hi, hi') && lo <= hi <= hi'
    requires forall o :: o in objs ==> o < hi
    requires forall o :: o in more ==> o >= hi
    ensures LaidOut(objs + more, lo, hi')
  {
    var all := objs + more;
    forall a, b | a in all && b in all && a != b ensures Apart(all, a, b) {
      if a in objs && b in objs {
        assert a !in more && b !in more && Apart(objs, a, b);
      } else if a in more && b in more {
        assert Apart(more, a, b);
      }
    }
  }

  lemma EvenPower(n: nat)
    requires HashCompact.PowerOfTwo(n) && n >= 2
    ensures n % 2 == 0
  {
    HashCompact.HalfPower(n);
  }

  lemma KeptHashEven(h: Heap, t: Table)
    requires TableOk(h, t) && t.buckets != []
    ensures KeptHashSize(t) % 2 == 0
  {
    if !t.packed {
      if HashCompact.Sparse(t.hashSize, |t.buckets|) { HashCompact.CompactSizeBounds(t.hashSize, |t.buckets|); }
      hide TableOk;
      EvenPower(KeptHashSize(t));
    }
  }

  lemma AreaExtent(off: nat, t: Table)
    requires t.buckets != [] && KeptHashSize(t) % 2 == 0 && off % 8 == 0
    ensures var area := AArea(t.packed, 4 * KeptHashSize(t), |t.buckets|);
            && AreaOffset(off, t) % 8 == 0
            && Begin(AreaOffset(off, t), area) == off + SIZEOF_ARRAY
            && Extent(area) == DataBytes(t) && DataBytes(t) > 0
  {
    hide KeptHashSize;
  }

  lemma TableObjsLaidOut(h: Heap, off: nat, t: Table)
    requires TableOk(h, t) && off % 8 == 0
    ensures LaidOut(TableObjs(off, t), off, off + SIZEOF_ARRAY + DataBytes(t))
    ensures forall o :: o in TableObjs(off, t) ==> o >= off
  {
    if t.buckets != [] {
      KeptHashEven(h, t);
      AreaExtent(off, t);
      AreaBeyond(off, t);
      hide AreaOffset, KeptHashSize, DataBytes, TableOk;
      var objs := TableObjs(off, t);
      assert objs.Keys == {off, AreaOffset(off, t)};
    }
  }

  lemma NodeLaidOut(off: nat, a: Ast)
    requires off % 8 == 0 && !a.Absent?
    ensures Begin(off, NodeShape(a)) == off && Extent(NodeShape(a)) == PersistNodeBytes(a)
  {
  }

  // ---------------------------------------------------------------- the invariant

  ghost predicate Tidy(st: Store, header: nat, work: seq<Task>) {
    CellsRight(st, work) && AllPresent(st) && LaidOut(st.objs, header, st.used) && header <= st.used && st.used % 8 == 0
  }

  /** What has to be shown of the objects and slots a step adds. */
  ghost predicate NewTidy(st: Store, st': Store, task: Task, w: Zval, objs: map<nat, AObj>, cells: map<Slot, Zval>,
                          more: seq<Task>) {
    && task.s in st.cells && SameSort(task, st.cells[task.s], w) && PointsRight(st'.base, st'.objs, task.s, w)
    && LaidOut(objs, st.used, st'.used) && st'.used % 8 == 0
    && NewSlots(st', objs, cells, more)
  }

  ghost predicate NewSlots(st': Store, objs: map<nat, AObj>, cells: map<Slot, Zval>, more: seq<Task>) {
    && (forall o :: o in objs ==> o in st'.objs && SlotsPresent(st'.objs, st'.cells, o))
    && (forall u :: u in cells ==> u in st'.cells && SlotRight(st', more, u))
  }

  lemma TidyStep(h: Heap, st: Store, header: nat, task: Task, rest: seq<Task>, st': Store, w: Zval,
                 objs: map<nat, AObj>, cells: map<Slot, Zval>, from: map<nat, Ast>, more: seq<Task>, p: nat)
    requires Inv(h, st, [task] + rest) && Tidy(st, header, [task] + rest)
    requires Ready(h, st, task, st', w, objs, cells, from, more, p)
    requires NewTidy(st, st', task, w, objs, cells, more)
    ensures Tidy(st', header, more + rest)
  {
    FirstTask(h, st, [task] + rest);
    InvBounded(h, st, [task] + rest);
    AddedFrame(st, st', task.s, w, objs, cells, from);
    ReadyFrame(h, st, task, rest, st', w, objs, cells, from, more, p);
    hide Inv, Settles, Uniq, PointsRight, SlotsPresent, Dead, LaidOut, SameSort, TasksOk;
    assert st'.cells[task.s] == w;
    AllPresentStep(st, st', task);
    TidyCells(h, st, task, rest, st', w, objs, cells, from, more, p);
    hide CellsRight, AllPresent, SlotRight;
    LaidOutStep(st.objs, header, st.used, objs, st'.used);
  }

  lemma TidyCells(h: Heap, st: Store, task: Task, rest: seq<Task>, st': Store, w: Zval,
                  objs: map<nat, AObj>, cells: map<Slot, Zval>, from: map<nat, Ast>, more: seq<Task>, p: nat)
    requires Inv(h, st, [task] + rest) && CellsRight(st, [task] + rest)
    requires Ready(h, st, task, st', w, objs, cells, from, more, p)
    requires NewTidy(st, st', task, w, objs, cells, more)
    ensures CellsRight(st', more + rest)
  {
    hide Inv, Settles, Uniq, PointsRight, SlotsPresent, LaidOut, SameSort, TasksOk, WaitSet, NewSlots, SlotRight;
    AddedExtends(h, st, task, rest, st', w, objs, cells, from, more, p);
    ReadyFrame(h, st, task, rest, st', w, objs, cells, from, more, p);
    FreshRight(st, st', task.s, w, objs, cells, from, more, rest);
    hide Extends, Added, CellsRight;
    CellsRightStep(h, st, [task] + rest, st', more + rest, task);
  }

  /** The slots that are new are right, seen from all the work. */
  lemma FreshRight(st: Store, st': Store, s: Slot, w: Zval, objs: map<nat, AObj>, cells: map<Slot, Zval>,
                   from: map<nat, Ast>,
                   more: seq<Task>, rest: seq<Task>)
    requires Added(st, st', s, w, objs, cells, from) && NewSlots(st', objs, cells, more)
    requires forall u :: u in cells ==> (Waits(more + rest, u) <==> Waits(more, u))
    ensures st'.cells[s] == w
    ensures forall u :: u in st'.cells && u !in st.cells ==> SlotRight(st', more + rest, u)
  {
    hide PointsRight, Dead, Waits, SlotsPresent;
  }

  lemma StringTidy(h: Heap, st: Store, header: nat, s: Slot, rest: seq<Task>, p: nat)
    requires Inv(h, st, [Fix(s)] + rest) && Tidy(st, header, [Fix(s)] + rest) && s in st.cells && st.cells[s] == StrV(p)
    requires p in h && h[p].StrObj? && p !in st.xlat
    ensures Tidy(Put(CopyString(st, p, h[p].raw), s, StrV(st.base + st.used)), header, [] + rest)
  {
    hide Inv, Ready, Tidy, NewTidy;
    var w := StrV(st.base + st.used);
    var st', objs := Put(CopyString(st, p, h[p].raw), s, w), map[st.used := AString(true, h[p].raw)];
    StringReady(h, st, s, rest, p);
    TidyUsed(st, header, [Fix(s)] + rest);
    StringBytes(h, st, s, rest, p);
    StringNewTidy(st, s, p, h[p].raw);
    TidyStep(h, st, header, Fix(s), rest, st', w, objs, map[], map[], [], p);
  }

  lemma TidyUsed(st: Store, header: nat, work: seq<Task>)
    requires Tidy(st, header, work)
    ensures st.used % 8 == 0
  {
  }

  lemma StringNewTidy(st: Store, s: Slot, p: nat, raw: seq<byte>)
    requires s in st.cells && st.cells[s] == StrV(p) && st.used % 8 == 0 && IsString(raw)
    ensures var w := StrV(st.base + st.used);
            NewTidy(st, Put(CopyString(st, p, raw), s, w), Fix(s), w, map[st.used := AString(true, raw)], map[], [])
  {
    var objs := map[st.used := AString(true, raw)];
    StringLaidOut(st.used, raw);
    hide LaidOut, IsString;
    assert st.used in objs && objs.Keys == {st.used};
  }

  lemma StringLaidOut(off: nat, raw: seq<byte>)
    requires off % 8 == 0 && |raw| > 0
    ensures LaidOut(map[off := AString(true, raw)], off, off + Aligned(|raw|)) && (off + Aligned(|raw|)) % 8 == 0
  {
  }

  /** What a freshly copied table leaves in its slots. */
  ghost predicate TableFilled(st: Store, header: nat, t: Table) {
    && header in st.objs && st.objs[header] == AHeader(t.buckets == [], t.packed, |t.buckets|)
    && ArData(header) in st.cells
    && if t.buckets == [] then st.cells[ArData(header)] == Ptr(UNINITIALIZED_BUCKET)
       else var area := AreaOffset(header, t);
            && area in st.objs && st.objs[area] == AArea(t.packed, 4 * KeptHashSize(t), |t.buckets|)
            && st.cells[ArData(header)] == Ptr(st.base + area)
            && (forall i: nat :: i < |t.buckets| ==>
                  && Elem(area, i) in st.cells && st.cells[Elem(area, i)] == t.buckets[i].val
                  && Key(area, i) in st.cells && st.cells[Key(area, i)] == StrV(t.buckets[i].key))
  }

  lemma FillTable(st: Store, header: nat, t: Table)
    requires forall o :: o in TableObjs(header, t) ==> o in st.objs && st.objs[o] == TableObjs(header, t)[o]
    requires forall u :: u in TableCells(st.base, header, t) ==>
               u in st.cells && st.cells[u] == TableCells(st.base, header, t)[u]
    ensures TableFilled(st, header, t)
  {
    AreaBeyond(header, t);
    hide AreaOffset, KeptHashSize, AreaCells;
    assert header in TableObjs(header, t) && ArData(header) in TableCells(st.base, header, t);
    if t.buckets != [] {
      var area := AreaOffset(header, t);
      assert area in TableObjs(header, t);
      forall i: nat | i < |t.buckets|
        ensures Elem(area, i) in st.cells && st.cells[Elem(area, i)] == t.buckets[i].val
        ensures Key(area, i) in st.cells && st.cells[Key(area, i)] == StrV(t.buckets[i].key)
      {
        assert Elem(area, i) in AreaCells(area, t.buckets) && Key(area, i) in AreaCells(area, t.buckets);
        assert Elem(area, i) in TableCells(st.base, header, t) && Key(area, i) in TableCells(st.base, header, t);
      }
    }
  }

  lemma TableObjsPresent(h: Heap, st: Store, header: nat, t: Table)
    requires TableOk(h, t) && TableFilled(st, header, t)
    ensures forall o :: o in TableObjs(header, t) ==> o in st.objs && SlotsPresent(st.objs, st.cells, o)
  {
    hide AreaOffset, KeptHashSize;
    forall i: nat | i < |t.buckets| ensures !t.buckets[i].val.Ptr? { assert BucketOk(h, t, t.buckets[i]); }
    forall o | o in TableObjs(header, t) ensures o in st.objs && SlotsPresent(st.objs, st.cells, o) {
      assert o == header || (t.buckets != [] && o == AreaOffset(header, t));
    }
  }

  lemma TableSlotRight(st: Store, header: nat, t: Table, more: seq<Task>, u: Slot)
    requires TableFilled(st, header, t) && u in TableCells(st.base, header, t)
    requires forall v :: v in WaitSet(more) <==> IsTableTask(AreaOffset(header, t), t.buckets, 0, v)
    ensures u in st.cells && SlotRight(st, more, u)
  {
    hide AreaOffset, KeptHashSize, AreaCells, WaitSet;
    if u == ArData(header) {
      assert PointsRight(st.base, st.objs, u, st.cells[u]);
    } else if u.Elem? {
      assert st.cells[u] == t.buckets[u.i].val;
    } else {
      assert st.cells[u] == StrV(t.buckets[u.i].key);
    }
  }

  lemma TableNewSlots(h: Heap, st: Store, header: nat, t: Table, more: seq<Task>)
    requires TableOk(h, t) && TableFilled(st, header, t) && more == TableTasks(AreaOffset(header, t), t.buckets, 0)
    ensures NewSlots(st, TableObjs(header, t), TableCells(st.base, header, t), more)
  {
    hide TableTasks, WaitSet, AreaOffset, TableCells, TableObjs, SlotRight, TableFilled, TableOk, SlotsPresent;
    hide IsTableTask, Uniq;
    TableObjsPresent(h, st, header, t);
    TableTasksWait(AreaOffset(header, t), t.buckets, 0);
    forall u | u in TableCells(st.base, header, t) ensures u in st.cells && SlotRight(st, more, u) {
      TableSlotRight(st, header, t, more, u);
    }
  }

  lemma TableStored(h: Heap, st: Store, s: Slot, p: nat)
    requires Bounded(st) && HeapOk(h) && s in st.cells && p in h && h[p].ArrObj?
    ensures var (st1, more) := CopyTable(st, p, h[p].t); var st' := Put(st1, s, ArrV(st.base + st.used));
            && TableFilled(st', st.used, h[p].t) && TableOk(h, h[p].t)
            && NewSlots(st', TableObjs(st.used, h[p].t), TableCells(st.base, st.used, h[p].t), more)
  {
    assert ObjOk(h, p);
    hide HeapOk, Bounded, AreaOffset, TableTasks, TableCells, TableObjs, TableFilled, Added, DataBytes, TableOk;
    var t, w, header := h[p].t, ArrV(st.base + st.used), st.used;
    var (st1, more) := CopyTable(st, p, t);
    var st' := Put(st1, s, w);
    TableAdded(st, s, p, t);
    AddedFrame(st, st', s, w, TableObjs(header, t), TableCells(st.base, header, t), map[]);
    FillTable(st', header, t);
    TableNewSlots(h, st', header, t, more);
  }

  lemma TableNewTidy(h: Heap, st: Store, s: Slot, p: nat)
    requires Bounded(st) && HeapOk(h) && s in st.cells && st.cells[s] == ArrV(p) && st.used % 8 == 0
    requires p in h && h[p].ArrObj?
    ensures var (st1, more) := CopyTable(st, p, h[p].t); var w := ArrV(st.base + st.used);
            NewTidy(st, Put(st1, s, w), Fix(s), w, TableObjs(st.used, h[p].t),
                    TableCells(st.base, st.used, h[p].t), more)
  {
    hide LaidOut, HeapOk, Bounded, TableTasks, TableCells, TableObjs, TableFilled, NewSlots, TableOk, AreaOffset;
    hide NewTidy, DataBytes;
    var t, header, w := h[p].t, st.used, ArrV(st.base + st.used);
    var (st1, more) := CopyTable(st, p, t);
    var st' := Put(st1, s, w);
    TableStored(h, st, s, p);
    TableObjsLaidOut(h, header, t);
    HeaderFilled(st', header, t);
    AddsUp(header, SIZEOF_ARRAY, DataBytes(t));
    HeaderIsTidy(st, st', Fix(s), w, TableObjs(header, t), TableCells(st.base, header, t), more);
  }

  lemma AddsUp(a: nat, b: nat, c: nat)
    requires a % 8 == 0 && b % 8 == 0 && c % 8 == 0
    ensures (a + b + c) % 8 == 0
  {
  }

  lemma HeaderIsTidy(st: Store, st': Store, task: Task, w: Zval, objs: map<nat, AObj>, cells: map<Slot, Zval>,
                     more: seq<Task>)
    requires task.Fix? && task.s in st.cells && st.cells[task.s].ArrV? && w == ArrV(st'.base + st.used)
    requires st.used in st'.objs && st'.objs[st.used].AHeader?
    requires LaidOut(objs, st.used, st'.used) && st'.used % 8 == 0 && NewSlots(st', objs, cells, more)
    ensures NewTidy(st, st', task, w, objs, cells, more)
  {
    hide LaidOut, NewSlots;
  }

  lemma HeaderFilled(st: Store, header: nat, t: Table)
    requires TableFilled(st, header, t)
    ensures header in st.objs && st.objs[header].AHeader?
  {
  }

  lemma TableTidy(h: Heap, st: Store, header: nat, s: Slot, rest: seq<Task>, p: nat)
    requires Inv(h, st, [Fix(s)] + rest) && Tidy(st, header, [Fix(s)] + rest) && s in st.cells && st.cells[s] == ArrV(p)
    requires p in h && h[p].ArrObj? && p !in st.xlat
    ensures var (st', more) := CopyTable(st, p, h[p].t);
            Tidy(Put(st', s, ArrV(st.base + st.used)), header, more + rest)
  {
    hide Inv, Ready, Tidy, NewTidy, TableObjs, TableCells, TableTasks, AreaOffset, DataBytes, Bounded, HeapOk;
    var w := ArrV(st.base + st.used);
    var (st1, more) := CopyTable(st, p, h[p].t);
    TableReady(h, st, s, rest, p);
    TidyUsed(st, header, [Fix(s)] + rest);
    InvBounded(h, st, [Fix(s)] + rest);
    TableNewTidy(h, st, s, p);
    TidyStep(h, st, header, Fix(s), rest, Put(st1, s, w), w, TableObjs(st.used, h[p].t),
             TableCells(st.base, st.used, h[p].t), map[], more, p);
  }

  // ---------------------------------------------------------------- nodes

  /** The slots of a freshly copied node are typed, and those that do not wait are right. */
  lemma NodeSlotsRight(h: Heap, st: Store, node: nat, owner: nat, a: Ast)
    requires !a.Absent? && AstOk(h, owner, a) && node in st.objs && st.objs[node] == NodeShape(a)
    requires forall u :: u in NodeCells(node, a) ==> u in st.cells && st.cells[u] == NodeCells(node, a)[u]
    ensures SlotsPresent(st.objs, st.cells, node)
    ensures forall u :: u in NodeCells(node, a) ==> u in st.cells && SlotRight(st, NodeTasks(node, owner, a), u)
  {
    hide KidTasks, ChildCells;
    if a.ValNode? {
      WaitSetOne(Fix(NodeVal(node)));
      assert NodeVal(node) in NodeCells(node, a);
    }
  }

  lemma SubNewSlots(h: Heap, st: Store, s: Slot, owner: nat, a: Ast)
    requires Bounded(st) && TaskOk(h, st, Sub(s, owner, a))
    ensures var (st1, more) := CopyNode(st, owner, a); var st' := Put(st1, s, Ptr(st.base + st.used));
            && st.used in st'.objs && st'.objs[st.used] == NodeShape(a)
            && NewSlots(st', map[st.used := NodeShape(a)], NodeCells(st.used, a), more)
  {
    hide Bounded, NodeTasks, NodeCells, Added, AstOk, SlotRight, PersistNodeBytes, NodeShape, SlotsPresent;
    var node, w := st.used, Ptr(st.base + st.used);
    var st', objs := Put(CopyNode(st, owner, a).0, s, w), map[node := NodeShape(a)];
    NodeAdded(st, s, owner, a);
    AddedFrame(st, st', s, w, objs, NodeCells(node, a), map[node := a]);
    assert node in objs;
    NodeSlotsRight(h, st', node, owner, a);
  }

  lemma SubNewTidy(h: Heap, st: Store, s: Slot, owner: nat, a: Ast)
    requires Bounded(st) && TaskOk(h, st, Sub(s, owner, a)) && st.used % 8 == 0
    ensures var (st1, more) := CopyNode(st, owner, a); var w := Ptr(st.base + st.used);
            NewTidy(st, Put(st1, s, w), Sub(s, owner, a), w, map[st.used := NodeShape(a)], NodeCells(st.used, a), more)
  {
    hide Bounded, NodeTasks, NodeCells, AstOk, NewSlots, LaidOut, PersistNodeBytes, NodeShape;
    SubNewSlots(h, st, s, owner, a);
    OneLaidOut(st.used, a);
    AddsUp(st.used, PersistNodeBytes(a), 0);
    NodeShapeIsNode(a);
  }

  lemma NodeShapeIsNode(a: Ast)
    ensures !a.Absent? ==> NodeShape(a).AZvalNode? || NodeShape(a).AInner?
  {
  }

  lemma OneLaidOut(node: nat, a: Ast)
    requires node % 8 == 0 && !a.Absent?
    ensures LaidOut(map[node := NodeShape(a)], node, node + PersistNodeBytes(a))
  {
    NodeLaidOut(node, a);
    hide PersistNodeBytes, Extent, NodeShape;
  }

  lemma RefLaidOut(off: nat, root: Ast)
    requires off % 8 == 0 && !root.Absent?
    ensures LaidOut(RefObjs(off, root), off, off + SIZEOF_AST_REF + PersistNodeBytes(root))
  {
    var node := off + SIZEOF_AST_REF;
    OneLaidOut(node, root);
    assert LaidOut(map[off := ARef], off, node);
    assert RefObjs(off, root) == map[off := ARef] + map[node := NodeShape(root)];
    hide PersistNodeBytes, NodeShape, LaidOut, RefObjs;
    LaidOutStep(map[off := ARef], off, node, map[node := NodeShape(root)], node + PersistNodeBytes(root));
  }

  lemma SubTidy(h: Heap, st: Store, header: nat, s: Slot, owner: nat, a: Ast, rest: seq<Task>)
    requires Inv(h, st, [Sub(s, owner, a)] + rest) && Tidy(st, header, [Sub(s, owner, a)] + rest)
    ensures var (st', more) := CopyNode(st, owner, a);
            Tidy(Put(st', s, Ptr(st.base + st.used)), header, more + rest)
  {
    hide Inv, Ready, Tidy, NewTidy, NodeShape, NodeCells, NodeTasks, PersistNodeBytes, Bounded, HeapOk, TaskOk;
    var w := Ptr(st.base + st.used);
    var (st1, more) := CopyNode(st, owner, a);
    FirstTask(h, st, [Sub(s, owner, a)] + rest);
    InvBounded(h, st, [Sub(s, owner, a)] + rest);
    TidyUsed(st, header, [Sub(s, owner, a)] + rest);
    SubReady(h, st, s, owner, a);
    SubNewTidy(h, st, s, owner, a);
    TidyStep(h, st, header, Sub(s, owner, a), rest, Put(st1, s, w),
             w, map[st.used := NodeShape(a)], NodeCells(st.used, a),
             map[st.used := a], more, 0);
  }

  lemma RefNewSlots(h: Heap, st: Store, s: Slot, p: nat)
    requires Bounded(st) && HeapOk(h) && s in st.cells && p in h && h[p].RefObj?
    ensures var root := h[p].root; var (st1, more) := CopyRef(st, p, root);
            var st' := Put(st1, s, AstV(st.base + st.used)); var node := st.used + SIZEOF_AST_REF;
            && !root.Absent? && st.used in st'.objs && st'.objs[st.used] == ARef
            && node in st'.objs && st'.objs[node] == NodeShape(root)
            && NewSlots(st', RefObjs(st.used, root), NodeCells(node, root), more)
  {
    hide Bounded, NodeTasks, NodeCells, Added, AstOk, SlotRight, HeapOk, PersistNodeBytes, NodeShape, RefObjs;
    hide SlotsPresent;
    var root, node, w := h[p].root, st.used + SIZEOF_AST_REF, AstV(st.base + st.used);
    var st', objs := Put(CopyRef(st, p, root).0, s, w), RefObjs(st.used, root);
    RootPresent(h, p);
    RefAdded(st, s, p, root);
    AddedFrame(st, st', s, w, objs, NodeCells(node, root), map[node := root]);
    RefObjsKeys(st.used, root);
    NodeSlotsRight(h, st', node, p, root);
    RefPresent(st'.objs, st'.cells, st.used);
  }

  lemma RefObjsKeys(off: nat, root: Ast)
    ensures var objs := RefObjs(off, root); var node := off + SIZEOF_AST_REF;
            objs.Keys == {off, node} && objs[off] == ARef && objs[node] == NodeShape(root)
  {
  }

  lemma RefPresent(objs: map<nat, AObj>, cells: map<Slot, Zval>, o: nat)
    requires o in objs && objs[o] == ARef
    ensures SlotsPresent(objs, cells, o)
  {
  }

  lemma RefNewTidy(h: Heap, st: Store, s: Slot, p: nat)
    requires Bounded(st) && HeapOk(h) && s in st.cells && st.cells[s] == AstV(p) && st.used % 8 == 0
    requires p in h && h[p].RefObj?
    ensures var root := h[p].root; var (st1, more) := CopyRef(st, p, root);
            var w := AstV(st.base + st.used); var node := st.used + SIZEOF_AST_REF;
            NewTidy(st, Put(st1, s, w), Fix(s), w, RefObjs(st.used, root), NodeCells(node, root), more)
  {
    hide Bounded, NodeTasks, NodeCells, HeapOk, NewSlots, LaidOut, RefObjs;
    RefNewSlots(h, st, s, p);
    RefLaidOut(st.used, h[p].root);
  }

  lemma RefTidy(h: Heap, st: Store, header: nat, s: Slot, rest: seq<Task>, p: nat)
    requires Inv(h, st, [Fix(s)] + rest) && Tidy(st, header, [Fix(s)] + rest) && s in st.cells && st.cells[s] == AstV(p)
    requires p in h && h[p].RefObj? && Kept(h[p].root) && p !in st.xlat
    ensures var (st', more) := CopyRef(st, p, h[p].root);
            Tidy(Put(st', s, AstV(st.base + st.used)), header, more + rest)
  {
    hide Inv, Ready, Tidy, NewTidy, NodeShape, NodeCells, NodeTasks, RefObjs, PersistNodeBytes, Bounded, HeapOk;
    var root, node, w := h[p].root, st.used + SIZEOF_AST_REF, AstV(st.base + st.used);
    var (st1, more) := CopyRef(st, p, root);
    InvBounded(h, st, [Fix(s)] + rest);
    TidyUsed(st, header, [Fix(s)] + rest);
    RefReady(h, st, s, p);
    RefNewTidy(h, st, s, p);
    TidyStep(h, st, header, Fix(s), rest, Put(st1, s, w), w, RefObjs(st.used, root), NodeCells(node, root),
             map[node := root], more, p);
  }

  // ---------------------------------------------------------------- the whole pass

  lemma PutTidy(h: Heap, st: Store, header: nat, s: Slot, rest: seq<Task>, w: Zval)
    requires Inv(h, st, [Fix(s)] + rest) && Tidy(st, header, [Fix(s)] + rest) && TaskOk(h, st, Fix(s))
    requires Translated(h, st.xlat, st.cells[s], w) && PointsRight(st.base, st.objs, s, w)
    ensures Tidy(Put(st, s, w), header, [] + rest)
  {
    hide ObjsImaged, NodesImaged, RootsImaged, LaidOut, PointsRight, SlotsPresent;
    var st' := Put(st, s, w);
    assert SameSort(Fix(s), st.cells[s], w);
    assert TasksOk(h, st', []) && Uniq([]) && WaitSet([]) == {};
    StepExtends(h, st, Fix(s), rest, st', []);
    hide Extends, Inv, Uniq, TasksOk, SameSort, Translated, Waits;
    CellsRightStep(h, st, [Fix(s)] + rest, st', [] + rest, Fix(s));
    AllPresentStep(st, st', Fix(s));
  }

  /** A pointer rewritten through the translation table points at its image. */
  lemma RewrittenRight(h: Heap, st: Store, work: seq<Task>, s: Slot, v: Zval)
    requires Inv(h, st, work) && ValOk(h, v) && (v.StrV? || v.ArrV? ==> v.p in st.xlat)
    ensures PointsRight(st.base, st.objs, s, Rewritten(h, st.xlat, v))
  {
    if (v.StrV? || v.ArrV? || v.AstV?) && v.p in st.xlat {
      var off := ImageOffset(h, st, work, v.p);
      if v.AstV? { RootImage(h, st, work, off + SIZEOF_AST_REF); }
      hide Inv, IsNode, AreaAt;
    }
  }

  lemma ImageOffset(h: Heap, st: Store, work: seq<Task>, p: nat) returns (off: nat)
    requires Inv(h, st, work) && p in st.xlat
    ensures p in h && st.xlat[p] == st.base + off && ObjAt(h, st, work, p, off)
  {
    hide ObjAt;
    assert Depicted(h, st, work, p);
    off := st.xlat[p] - st.base;
  }

  lemma RootImage(h: Heap, st: Store, work: seq<Task>, o: nat)
    requires Inv(h, st, work) && o in st.from
    ensures IsNode(st.objs, o)
  {
    assert NodeAt(h, st, work, o, st.from[o]);
  }

  lemma FixTidy(h: Heap, st: Store, header: nat, s: Slot, rest: seq<Task>)
    requires Inv(h, st, [Fix(s)] + rest) && Tidy(st, header, [Fix(s)] + rest) && TaskOk(h, st, Fix(s))
    ensures var (st', more) := PStep(h, st, Fix(s)); Tidy(st', header, more + rest)
  {
    hide Inv, Tidy, CopyTable, CopyRef, CopyString, Kept, PStep, Put, PointsRight;
    var v := st.cells[s];
    PStepNew(h, st, s);
    if v.StrV? && v.p !in st.xlat {
      StringTidy(h, st, header, s, rest, v.p);
    } else if v.ArrV? && v.p !in st.xlat {
      TableTidy(h, st, header, s, rest, v.p);
    } else if v.AstV? && v.p !in st.xlat && Kept(h[v.p].root) {
      RefTidy(h, st, header, s, rest, v.p);
    } else {
      if v.AstV? && v.p in st.xlat { XlatIsKept(h, st, [Fix(s)] + rest, v.p); }
      PStepOld(h, st, s);
      InvBounded(h, st, [Fix(s)] + rest);
      RewrittenRight(h, st, [Fix(s)] + rest, s, v);
      RewrittenIs(h, st.xlat, v);
      PutTidy(h, st, header, s, rest, Rewritten(h, st.xlat, v));
    }
  }

  lemma {:induction false} RunTidy(h: Heap, st: Store, header: nat, work: seq<Task>)
    requires Inv(h, st, work) && Tidy(st, header, work)
    ensures Tidy(PRun(h, st, work), header, [])
    decreases h.Keys - st.xlat.Keys, TasksWeight(work)
  {
    hide Inv, Tidy, CopyTable, CopyRef, CopyString, Kept, Put, CopyNode, TaskOk;
    if work != [] {
      var (st', more) := PStep(h, st, work[0]);
      PRunUnfold(h, st, work);
      FirstTask(h, st, work);
      StepKeeps(h, st, work);
      StepTidy(h, st, header, work);
      hide PStep;
      RunTidy(h, st', header, more + work[1..]);
    }
  }

  lemma StepTidy(h: Heap, st: Store, header: nat, work: seq<Task>)
    requires work != [] && Inv(h, st, work) && Tidy(st, header, work)
    ensures var (st', more) := PStep(h, st, work[0]); Tidy(st', header, more + work[1..])
  {
    hide Inv, Tidy, CopyNode, Put, TaskOk, HeapOk, CopyTable, CopyRef, CopyString, Kept;
    var rest := work[1..];
    assert work == [work[0]] + rest;
    FirstTask(h, st, work);
    match work[0]
    case Fix(s) => FixTidy(h, st, header, s, rest);
    case Sub(s, owner, a) => SubTidy(h, st, header, s, owner, a, rest);
  }

  lemma StartTidy(h: Heap, base: nat, header: nat, roots: seq<Zval>)
    requires Given(h, header, roots)
    ensures Tidy(Start(base, header, roots), header, RootTasks(0, |roots|))
  {
    hide RootTasks, WaitSet;
    RootTasksReady(0, |roots|);
  }

  /** The block zend_accel_script_persist leaves behind. */
  function ImageOf(st: Store): Image {
    Image(st.base, st.used, st.objs, st.cells)
  }

  lemma PersistedImageIsWellFormed(h: Heap, base: nat, header: nat, roots: seq<Zval>)
    requires Given(h, header, roots)
    ensures var st := Persist(h, base, header, roots);
            WellFormed(ImageOf(st), header) && st.base == base && st.used % 8 == 0
  {
    hide Inv, PRun, Tidy, Given;
    StartInv(h, base, header, roots);
    StartTidy(h, base, header, roots);
    RunTidy(h, Start(base, header, roots), header, RootTasks(0, |roots|));
    RunFrame(h, Start(base, header, roots), RootTasks(0, |roots|));
    TidyMeans(Persist(h, base, header, roots), header);
  }

  lemma TidyMeans(st: Store, header: nat)
    requires Tidy(st, header, [])
    ensures WellFormed(ImageOf(st), header) && st.used % 8 == 0
  {
    hide PointsRight, SlotsPresent, LaidOut, Dead;
    forall u | u in st.cells && !Dead(st.cells, u) ensures PointsRight(st.base, st.objs, u, st.cells[u]) {
      assert SlotRight(st, [], u);
    }
  }
}
