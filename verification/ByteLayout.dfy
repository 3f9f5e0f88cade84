/**
 The persisted block byte by byte: where the pointer fields of every object lie, how long every object
 is, and that the objects fill the block.  Offsets and lengths are those of a 64-bit build, written as
 numbers, and say nothing about how either pass computes them.
 */
module ByteLayout {
  import opened MachineWords
  import opened ZendGraph
  import opened Arena
  import opened PersistCopy
  import opened CopyIso
  import opened CopyTheorems
  import opened CopyImage
  import HashCompact

  // ---------------------------------------------------------------- fields

  /** The slot is a pointer field, or a value, of an object. */
  ghost predicate IsField(objs: map<nat, AObj>, s: Slot) {
    match s
    case Root(_) => false
    case ArData(o) => o in objs && objs[o].AHeader?
    case Key(o, i) => o in objs && objs[o].AArea? && !objs[o].packed && i < objs[o].used
    case Elem(o, i) => o in objs && objs[o].AArea? && i < objs[o].used
    case NodeVal(o) => o in objs && objs[o].AZvalNode?
    case Child(o, i) => o in objs && objs[o].AInner? && i < objs[o].children
  }

  /** The key of a packed element: no bytes, it stands for the missing key. */
  ghost predicate NoKey(objs: map<nat, AObj>, s: Slot) {
    s.Key? && s.area in objs && objs[s.area].AArea? && objs[s.area].packed && s.i < objs[s.area].used
  }

  /**
   The first byte of a field: arData behind gc, flags and mask; a bucket is a value, a hash and a key;
   a packed element is a value; the value of a literal and the children of a node lie behind kind,
   attributes and line, the children of a list behind their number as well.
   */
  ghost function FieldAt(objs: map<nat, AObj>, s: Slot): nat
    requires IsField(objs, s)
  {
    match s
    case ArData(o) => o + 16
    case Key(o, i) => o + 32 * i + 24
    case Elem(o, i) => if objs[o].packed then o + 16 * i else o + 32 * i
    case NodeVal(o) => o + 8
    case Child(o, i) => if objs[o].kind.ListKind? then o + 16 + 8 * i else o + 8 + 8 * i
  }

  ghost function FieldBytes(s: Slot): nat {
    if s.Elem? || s.NodeVal? then 16 else 8
  }

  /** The object at off takes the bytes from lo up to hi; a list or generic node without children is left open. */
  ghost predicate Occupies(off: nat, o: AObj, lo: int, hi: int) {
    match o
    case AString(_, raw) => lo == off && off + |raw| <= hi < off + |raw| + 8
    case AHeader(_, _, _) => lo == off && hi == off + 56
    case AArea(true, _, used) => lo == off - 8 && hi == off + 16 * used
    case AArea(false, hashBytes, used) => lo == off - hashBytes && hi == off + 32 * used
    case ARef => lo == off && hi == off + 8
    case AZvalNode(_) => lo == off && hi == off + 24
    case AInner(ListKind, n) => lo == off && (n > 0 ==> hi == off + 16 + 8 * n)
    case AInner(EnumInit, n) => lo == off && n == 3 && hi == off + 32
    case AInner(OtherKind, n) => lo == off && (n > 0 ==> hi == off + 8 + 8 * n)
  }

  /** What the passes guarantee about the numbers in an object. */
  ghost predicate ShapeRight(o: AObj) {
    match o
    case AArea(packed, hashBytes, _) => if packed then hashBytes == 8 else hashBytes % 8 == 0
    case AInner(kind, n) => n < UINT32 && (kind.EnumInit? ==> n == 3)
    case _ => true
  }

  lemma ShapeOccupies(off: nat, o: AObj)
    requires ShapeRight(o)
    ensures Occupies(off, o, Begin(off, o), Begin(off, o) + Extent(o))
  {
  }

  lemma FieldInside(objs: map<nat, AObj>, s: Slot)
    requires IsField(objs, s) && ShapeRight(objs[Owner(s)])
    ensures var o: nat := Owner(s);
            o <= FieldAt(objs, s) && FieldAt(objs, s) + FieldBytes(s) <= Begin(o, objs[o]) + Extent(objs[o])
  {
    var o: nat := Owner(s);
    ShapeOccupies(o, objs[o]);
    hide Extent;
  }

  /** The bytes of two fields do not overlap. */
  ghost predicate FieldsApart(objs: map<nat, AObj>, u: Slot, v: Slot)
    requires IsField(objs, u) && IsField(objs, v)
  {
    || FieldAt(objs, u) + FieldBytes(u) <= FieldAt(objs, v)
    || FieldAt(objs, v) + FieldBytes(v) <= FieldAt(objs, u)
  }

  lemma SameOwnerApart(objs: map<nat, AObj>, u: Slot, v: Slot)
    requires IsField(objs, u) && IsField(objs, v) && u != v && Owner(u) == Owner(v)
    ensures FieldsApart(objs, u, v)
  {
  }

  /** In a block whose objects are apart, so are all their fields. */
  lemma AllApart(objs: map<nat, AObj>, lo: nat, hi: nat, u: Slot, v: Slot)
    requires LaidOut(objs, lo, hi) && forall o :: o in objs ==> ShapeRight(objs[o])
    requires IsField(objs, u) && IsField(objs, v) && u != v
    ensures FieldsApart(objs, u, v)
  {
    if Owner(u) == Owner(v) {
      SameOwnerApart(objs, u, v);
    } else {
      var a: nat, b: nat := Owner(u), Owner(v);
      assert Apart(objs, a, b) && Extent(objs[a]) > 0 && Extent(objs[b]) > 0;
      FieldInside(objs, u);
      FieldInside(objs, v);
      hide FieldAt, FieldBytes, Extent, LaidOut, ShapeRight;
    }
  }

  // ---------------------------------------------------------------- the invariant

  ghost predicate ShapesRight(objs: map<nat, AObj>) {
    forall o :: o in objs ==> ShapeRight(objs[o])
  }

  ghost predicate SlotsOwned(objs: map<nat, AObj>, cells: map<Slot, Zval>) {
    forall u :: u in cells ==> u.Root? || IsField(objs, u) || NoKey(objs, u)
  }

  /** Byte b belongs to an object. */
  ghost predicate Taken(objs: map<nat, AObj>, b: nat) {
    exists o :: o in objs && Begin(o, objs[o]) <= b < Begin(o, objs[o]) + Extent(objs[o])
  }

  ghost predicate Covers(objs: map<nat, AObj>, lo: nat, hi: nat) {
    forall b: nat | lo <= b < hi :: Taken(objs, b)
  }

  ghost predicate Solid(st: Store, header: nat) {
    ShapesRight(st.objs) && SlotsOwned(st.objs, st.cells) && Covers(st.objs, header, st.used)
  }

  lemma CoversMore(objs: map<nat, AObj>, more: map<nat, AObj>, lo: nat, mid: nat, hi: nat)
    requires Covers(objs, lo, mid) && Covers(more, mid, hi) && objs.Keys !! more.Keys
    ensures Covers(objs + more, lo, hi)
  {
    hide Begin, Extent;
    var all := objs + more;
    forall b: nat | lo <= b < hi ensures Taken(all, b) {
      if b < mid {
        assert Taken(objs, b);
        var o :| o in objs && Begin(o, objs[o]) <= b < Begin(o, objs[o]) + Extent(objs[o]);
        assert all[o] == objs[o];
      } else {
        assert Taken(more, b);
        var o :| o in more && Begin(o, more[o]) <= b < Begin(o, more[o]) + Extent(more[o]);
        assert all[o] == more[o];
      }
    }
  }

  /** A step adds objects that are right in themselves. */
  lemma SolidStep(st: Store, header: nat, st': Store, s: Slot, w: Zval, objs: map<nat, AObj>,
                  cells: map<Slot, Zval>, from: map<nat, Ast>)
    requires Bounded(st) && Solid(st, header) && Added(st, st', s, w, objs, cells, from)
    requires ShapesRight(objs) && SlotsOwned(objs, cells) && Covers(objs, st.used, st'.used)
    ensures Solid(st', header)
  {
    assert objs.Keys !! st.objs.Keys;
    CoversMore(st.objs, objs, header, st.used, st'.used);
    hide Covers, ShapeRight;
    forall u | u in st'.cells ensures u.Root? || IsField(st'.objs, u) || NoKey(st'.objs, u) {
      if u in cells {
        assert IsField(objs, u) || NoKey(objs, u) || u.Root?;
      } else {
        assert IsField(st.objs, u) || NoKey(st.objs, u) || u.Root?;
      }
    }
  }

  lemma OneCovers(off: nat, o: AObj)
    requires !o.AArea?
    ensures Covers(map[off := o], off, off + Extent(o))
  {
    var objs := map[off := o];
    forall b: nat | off <= b < off + Extent(o) ensures Taken(objs, b) {
      assert off in objs && objs[off] == o;
    }
  }

  lemma StringSolid(st: Store, header: nat, s: Slot, p: nat, raw: seq<byte>)
    requires Bounded(st) && Solid(st, header) && s in st.cells && |raw| > 0
    ensures Solid(Put(CopyString(st, p, raw), s, StrV(st.base + st.used)), header)
  {
    var objs := map[st.used := AString(true, raw)];
    var w := StrV(st.base + st.used);
    OneCovers(st.used, AString(true, raw));
    assert st.from + map[] == st.from && st.cells + map[] == st.cells;
    SolidStep(st, header, Put(CopyString(st, p, raw), s, w), s, w, objs, map[], map[]);
  }

  lemma TableSolid(h: Heap, st: Store, header: nat, s: Slot, p: nat, t: Table)
    requires Bounded(st) && Solid(st, header) && s in st.cells && TableOk(h, t)
    ensures Solid(Put(CopyTable(st, p, t).0, s, ArrV(st.base + st.used)), header)
  {
    hide TableObjs, TableCells, DataBytes, Bounded, Solid, Added, ShapesRight, SlotsOwned, Covers, TableTasks;
    hide TableOk, AreaOffset;
    var off, w := st.used, ArrV(st.base + st.used);
    TableAdded(st, s, p, t);
    TableParts(h, st.base, off, t);
    SolidStep(st, header, Put(CopyTable(st, p, t).0, s, w), s, w, TableObjs(off, t), TableCells(st.base, off, t),
              map[]);
  }

  lemma TableParts(h: Heap, base: nat, off: nat, t: Table)
    requires TableOk(h, t)
    ensures ShapesRight(TableObjs(off, t)) && SlotsOwned(TableObjs(off, t), TableCells(base, off, t))
    ensures Covers(TableObjs(off, t), off, off + SIZEOF_ARRAY + DataBytes(t))
  {
    hide AreaCells, KeptHashSize;
    var head := AHeader(t.buckets == [], t.packed, |t.buckets|);
    OneCovers(off, head);
    if t.buckets == [] {
      assert TableObjs(off, t) == map[off := head];
    } else {
      HashKept(h, t);
      var area, kept := AreaOffset(off, t), AArea(t.packed, 4 * KeptHashSize(t), |t.buckets|);
      AreaCovers(off + SIZEOF_ARRAY, area, kept);
      CoversMore(map[off := head], map[area := kept], off, off + SIZEOF_ARRAY, off + SIZEOF_ARRAY + Extent(kept));
      assert TableObjs(off, t) == map[off := head] + map[area := kept];
      hide Covers, DataBytes;
    }
  }

  lemma AreaCovers(lo: nat, area: nat, o: AObj)
    requires o.AArea? && area == lo + o.hashBytes
    ensures Covers(map[area := o], lo, lo + Extent(o))
  {
    var objs := map[area := o];
    forall b: nat | lo <= b < lo + Extent(o) ensures Taken(objs, b) {
      assert area in objs && objs[area] == o;
    }
  }

  lemma NodeParts(h: Heap, off: nat, owner: nat, a: Ast)
    requires !a.Absent? && AstOk(h, owner, a)
    ensures ShapesRight(map[off := NodeShape(a)]) && SlotsOwned(map[off := NodeShape(a)], NodeCells(off, a))
    ensures Covers(map[off := NodeShape(a)], off, off + PersistNodeBytes(a))
  {
    OneCovers(off, NodeShape(a));
    hide Covers;
    assert map[off := NodeShape(a)].Keys == {off};
  }

  lemma SubSolid(h: Heap, st: Store, header: nat, s: Slot, owner: nat, a: Ast)
    requires Bounded(st) && Solid(st, header) && s in st.cells && !a.Absent? && AstOk(h, owner, a)
    ensures Solid(Put(CopyNode(st, owner, a).0, s, Ptr(st.base + st.used)), header)
  {
    hide AstOk, NodeCells, NodeShape, NodeTasks, PersistNodeBytes, Bounded, Solid, Added, ShapesRight, SlotsOwned;
    hide Covers;
    var w := Ptr(st.base + st.used);
    NodeAdded(st, s, owner, a);
    NodeParts(h, st.used, owner, a);
    SolidStep(st, header, Put(CopyNode(st, owner, a).0, s, w), s, w, map[st.used := NodeShape(a)],
              NodeCells(st.used, a), map[st.used := a]);
  }

  lemma RefSolid(h: Heap, st: Store, header: nat, s: Slot, p: nat, root: Ast)
    requires Bounded(st) && Solid(st, header) && s in st.cells && !root.Absent? && AstOk(h, p, root)
    ensures Solid(Put(CopyRef(st, p, root).0, s, AstV(st.base + st.used)), header)
  {
    hide AstOk, NodeCells, NodeTasks, PersistNodeBytes, Bounded, Solid, Added, ShapesRight, SlotsOwned, RefObjs;
    hide Covers, NodeShape;
    var w, node := AstV(st.base + st.used), st.used + SIZEOF_AST_REF;
    RefAdded(st, s, p, root);
    RefParts(h, st.used, p, root);
    SolidStep(st, header, Put(CopyRef(st, p, root).0, s, w), s, w, RefObjs(st.used, root), NodeCells(node, root),
              map[node := root]);
  }

  lemma RefParts(h: Heap, off: nat, owner: nat, root: Ast)
    requires !root.Absent? && AstOk(h, owner, root)
    ensures var node := off + SIZEOF_AST_REF;
            && ShapesRight(RefObjs(off, root)) && SlotsOwned(RefObjs(off, root), NodeCells(node, root))
            && Covers(RefObjs(off, root), off, node + PersistNodeBytes(root))
  {
    var node := off + SIZEOF_AST_REF;
    NodeParts(h, node, owner, root);
    OneCovers(off, ARef);
    hide AstOk, NodeCells, PersistNodeBytes, NodeShape, Covers;
    assert RefObjs(off, root) == map[off := ARef] + map[node := NodeShape(root)];
    CoversMore(map[off := ARef], map[node := NodeShape(root)], off, node, node + PersistNodeBytes(root));
    assert forall u :: IsField(map[node := NodeShape(root)], u) ==> IsField(RefObjs(off, root), u);
  }

  // ---------------------------------------------------------------- the whole pass

  lemma FixSolid(h: Heap, st: Store, header: nat, s: Slot, rest: seq<Task>)
    requires Inv(h, st, [Fix(s)] + rest) && Solid(st, header) && TaskOk(h, st, Fix(s))
    ensures Solid(PStep(h, st, Fix(s)).0, header)
  {
    InvBounded(h, st, [Fix(s)] + rest);
    hide Inv, Solid, CopyTable, CopyRef, CopyString, Kept, PStep, Bounded, AstOk, TableOk;
    var v := st.cells[s];
    PStepNew(h, st, s);
    if v.StrV? && v.p !in st.xlat {
      StringBytes(h, st, s, rest, v.p);
      StringSolid(st, header, s, v.p, h[v.p].raw);
    } else if v.ArrV? && v.p !in st.xlat {
      assert ObjOk(h, v.p);
      TableSolid(h, st, header, s, v.p, h[v.p].t);
    } else if v.AstV? && v.p !in st.xlat && Kept(h[v.p].root) {
      assert ObjOk(h, v.p);
      RefSolid(h, st, header, s, v.p, h[v.p].root);
    } else {
      PStepOld(h, st, s);
      PutSolid(st, header, s, Rewritten(h, st.xlat, v));
    }
  }

  lemma PutSolid(st: Store, header: nat, s: Slot, w: Zval)
    requires Solid(st, header) && s in st.cells
    ensures Solid(Put(st, s, w), header)
  {
    hide Covers;
  }

  lemma StepSolid(h: Heap, st: Store, header: nat, work: seq<Task>)
    requires work != [] && Inv(h, st, work) && Solid(st, header)
    ensures Solid(PStep(h, st, work[0]).0, header)
  {
    hide Inv, Solid, CopyNode, CopyTable, CopyRef, CopyString, Kept, Bounded, AstOk;
    var rest := work[1..];
    assert work == [work[0]] + rest;
    FirstTask(h, st, work);
    InvBounded(h, st, work);
    match work[0]
    case Fix(s) => FixSolid(h, st, header, s, rest);
    case Sub(s, owner, a) => SubSolid(h, st, header, s, owner, a);
  }

  lemma {:induction false} RunSolid(h: Heap, st: Store, header: nat, work: seq<Task>)
    requires Inv(h, st, work) && Solid(st, header)
    ensures Solid(PRun(h, st, work), header)
    decreases h.Keys - st.xlat.Keys, TasksWeight(work)
  {
    hide Inv, Solid, PStep;
    if work != [] {
      var (st', more) := PStep(h, st, work[0]);
      PRunUnfold(h, st, work);
      StepKeeps(h, st, work);
      StepSolid(h, st, header, work);
      RunSolid(h, st', header, more + work[1..]);
    }
  }

  /**
   The block after the pass: every object has the length its contents need, counted in bytes; the objects fill the
   block from the header on; every slot that is not a root is a field of an object, inside its bytes and, in a
   bucket area, behind the hash part; and different fields have no byte in common.
   */
  lemma PersistedBytes(h: Heap, base: nat, header: nat, roots: seq<Zval>)
    requires Given(h, header, roots)
    ensures var st := Persist(h, base, header, roots);
            && (forall o :: o in st.objs ==>
                  Occupies(o, st.objs[o], Begin(o, st.objs[o]), Begin(o, st.objs[o]) + Extent(st.objs[o])))
            && (forall b: nat | header <= b < st.used :: Taken(st.objs, b))
            && (forall u :: u in st.cells ==> u.Root? || NoKey(st.objs, u) || IsField(st.objs, u))
            && (forall u :: u in st.cells && IsField(st.objs, u) ==>
                  var o: nat := Owner(u);
                  && o <= FieldAt(st.objs, u)
                  && FieldAt(st.objs, u) + FieldBytes(u) <= Begin(o, st.objs[o]) + Extent(st.objs[o]))
            && (forall u, v :: u in st.cells && v in st.cells && u != v ==>
                  IsField(st.objs, u) && IsField(st.objs, v) ==> FieldsApart(st.objs, u, v))
  {
    hide Inv, PRun, Given, Persist, Solid, PStep;
    var st := Persist(h, base, header, roots);
    PersistSolid(h, base, header, roots);
    PersistedImageIsWellFormed(h, base, header, roots);
    SolidMeans(st, header);
  }

  lemma PersistSolid(h: Heap, base: nat, header: nat, roots: seq<Zval>)
    requires Given(h, header, roots)
    ensures Solid(Persist(h, base, header, roots), header)
  {
    hide Inv, PRun, Given, RootTasks;
    StartInv(h, base, header, roots);
    RunSolid(h, Start(base, header, roots), header, RootTasks(0, |roots|));
  }

  lemma SolidMeans(st: Store, header: nat)
    requires Solid(st, header) && WellFormed(ImageOf(st), header)
    ensures forall o :: o in st.objs ==>
              Occupies(o, st.objs[o], Begin(o, st.objs[o]), Begin(o, st.objs[o]) + Extent(st.objs[o]))
    ensures forall b: nat | header <= b < st.used :: Taken(st.objs, b)
    ensures forall u :: u in st.cells ==> u.Root? || NoKey(st.objs, u) || IsField(st.objs, u)
    ensures forall u :: u in st.cells && IsField(st.objs, u) ==>
              var o: nat := Owner(u);
              && o <= FieldAt(st.objs, u)
              && FieldAt(st.objs, u) + FieldBytes(u) <= Begin(o, st.objs[o]) + Extent(st.objs[o])
    ensures forall u, v :: u in st.cells && v in st.cells && u != v && IsField(st.objs, u) && IsField(st.objs, v) ==>
              FieldsApart(st.objs, u, v)
  {
    hide Occupies, ShapeRight, Begin, Extent, FieldAt, FieldBytes, LaidOut, FieldsApart, PointsRight, SlotsPresent;
    forall o | o in st.objs
      ensures Occupies(o, st.objs[o], Begin(o, st.objs[o]), Begin(o, st.objs[o]) + Extent(st.objs[o]))
    {
      ShapeOccupies(o, st.objs[o]);
    }
    forall u | u in st.cells && IsField(st.objs, u)
      ensures var o: nat := Owner(u);
              && o <= FieldAt(st.objs, u)
              && FieldAt(st.objs, u) + FieldBytes(u) <= Begin(o, st.objs[o]) + Extent(st.objs[o])
    {
      FieldInside(st.objs, u);
    }
    forall u, v | u in st.cells && v in st.cells && u != v && IsField(st.objs, u) && IsField(st.objs, v)
      ensures FieldsApart(st.objs, u, v)
    {
      AllApart(st.objs, header, st.used, u, v);
    }
  }

  /** A table's elements lie behind its header and the hash part it keeps. */
  lemma TableBytes(h: Heap, base: nat, header: nat, roots: seq<Zval>, p: nat)
    requires Given(h, header, roots) && p in Persist(h, base, header, roots).xlat
    requires p in h && h[p].ArrObj? && h[p].t.buckets != []
    ensures var st, t := Persist(h, base, header, roots), h[p].t;
            exists bytes: nat :: KeepsHash(t, bytes) && st.xlat[p] >= base
                                 && var area := st.xlat[p] - base + 56 + bytes;
                                    area in st.objs && st.objs[area] == AArea(t.packed, bytes, |t.buckets|)
  {
    hide Persist, Inv, Given, KeptHashSize, KeepsHash;
    var st, t := Persist(h, base, header, roots), h[p].t;
    PersistInv(h, base, header, roots);
    ObjDepicted(h, st, p);
    TableOkAt(h, header, roots, p);
    HashKept(h, t);
    var bytes: nat := 4 * KeptHashSize(t);
    assert TableAt(h, st, [], st.xlat[p] - base, t);
    assert st.xlat[p] - base + 56 + bytes == AreaOffset(st.xlat[p] - base, t);
  }

  lemma TableOkAt(h: Heap, header: nat, roots: seq<Zval>, p: nat)
    requires Given(h, header, roots) && p in h && h[p].ArrObj?
    ensures TableOk(h, h[p].t)
  {
    assert ObjOk(h, p);
  }
}
