/**
 The walk that serializes an image meets everything copying put there: from the root slots it
 reaches every live slot of every copied table and expression.
 */
module CopyReach {
  import opened ZendGraph
  import opened Arena
  import opened SizeAccounting
  import opened PersistCopy
  import opened CopyIso
  import opened CopyTheorems
  import opened CopyImage
  import opened CopySizes
  import opened Relocation

  /** The slot needs no relocation, or is in v. */
  ghost predicate Met(st: Store, v: set<Slot>, u: Slot) {
    u in st.cells && (IsPointer(st.cells[u]) ==> u in v)
  }

  ghost predicate TableMet(st: Store, v: set<Slot>, off: nat, t: Table) {
    Met(st, v, ArData(off)) && forall i: nat :: i < |t.buckets| && !t.buckets[i].val.Undef? ==>
      Met(st, v, Elem(AreaOffset(off, t), i)) && Met(st, v, Key(AreaOffset(off, t), i))
  }

  ghost predicate TreeMet(st: Store, v: set<Slot>, o: nat, a: Ast)
    decreases a
  {
    match a
    case Absent => true
    case ValNode(_, _) => Met(st, v, NodeVal(o))
    case Inner(_, kids) => forall i: nat :: i < |kids| ==>
      Met(st, v, Child(o, i))
      && (st.cells[Child(o, i)].Ptr? ==> TreeMet(st, v, Offset(ImageOf(st), st.cells[Child(o, i)].p), kids[i]))
  }

  /** Every slot of the image of p has been met; for a string, a slot that leads to it. */
  ghost predicate ObjMet(h: Heap, st: Store, v: set<Slot>, p: nat) {
    && p in st.xlat && p in h && st.xlat[p] >= st.base
    && match h[p]
       case StrObj(_) => exists u :: u in v && u in st.cells && st.cells[u] == StrV(st.xlat[p])
       case ArrObj(t) => TableMet(st, v, st.xlat[p] - st.base, t)
       case RefObj(root) => TreeMet(st, v, st.xlat[p] - st.base + SIZEOF_AST_REF, root)
  }

  // ---------------------------------------------------------------- from a slot to the slots behind it

  lemma AreaSlotsHold(img: Image, area: nat, k: nat)
    requires area in img.objs && img.objs[area].AArea? && k < img.objs[area].used
    requires Elem(area, k) in img.cells && !img.cells[Elem(area, k)].Undef?
    ensures Elem(area, k) in AreaSlots(img, area, 0)
    ensures !img.objs[area].packed ==> Key(area, k) in AreaSlots(img, area, 0)
  {
    hide AreaSlots;
    ElemAmongArea(img, area, 0, k);
    assert Elem(area, k) in ElemSlots(img, area, k);
    assert !img.objs[area].packed ==> Key(area, k) in ElemSlots(img, area, k);
  }

  lemma ImageOfTable(h: Heap, st: Store, q: nat)
    requires Inv(h, st, []) && q in st.xlat && q in h && h[q].ArrObj?
    ensures st.xlat[q] >= st.base && TableOk(h, h[q].t) && TableAt(h, st, [], st.xlat[q] - st.base, h[q].t)
  {
    hide TableAt, TableOk;
    ObjDepicted(h, st, q);
    HeapTable(h, st, q);
  }

  lemma HeapTable(h: Heap, st: Store, q: nat)
    requires Inv(h, st, []) && q in h && h[q].ArrObj?
    ensures TableOk(h, h[q].t)
  {
    assert ObjOk(h, q);
  }

  /** The two slots of a live bucket, in the image. */
  lemma BucketAt(h: Heap, st: Store, off: nat, t: Table, i: nat)
    requires TableOk(h, t) && TableAt(h, st, [], off, t) && i < |t.buckets| && !t.buckets[i].val.Undef?
    ensures var area := AreaOffset(off, t);
            && area in st.objs && st.objs[area].AArea?
            && st.objs[area].packed == t.packed && st.objs[area].used == |t.buckets|
            && Elem(area, i) in st.cells && Translated(h, st.xlat, t.buckets[i].val, st.cells[Elem(area, i)])
            && Key(area, i) in st.cells && Translated(h, st.xlat, StrV(t.buckets[i].key), st.cells[Key(area, i)])
    ensures BucketOk(h, t, t.buckets[i])
  {
    hide AreaOffset, KeptHashSize, Translated;
    var area := AreaOffset(off, t);
    assert Good(h, st, [], Elem(area, i), t.buckets[i].val) && Good(h, st, [], Key(area, i), StrV(t.buckets[i].key));
  }

  lemma BucketMet(h: Heap, st: Store, v: set<Slot>, off: nat, t: Table, i: nat)
    requires TableOk(h, t) && TableAt(h, st, [], off, t) && i < |t.buckets| && !t.buckets[i].val.Undef?
    requires Pointers(ImageOf(st), AreaSlots(ImageOf(st), AreaOffset(off, t), 0)) <= v
    ensures Met(st, v, Elem(AreaOffset(off, t), i)) && Met(st, v, Key(AreaOffset(off, t), i))
  {
    BucketAt(h, st, off, t, i);
    hide AreaOffset, AreaSlots, TableAt, TableOk;
    var img, area := ImageOf(st), AreaOffset(off, t);
    AreaSlotsHold(img, area, i);
    if IsPointer(st.cells[Elem(area, i)]) { assert Elem(area, i) in Pointers(img, AreaSlots(img, area, 0)); }
    if IsPointer(st.cells[Key(area, i)]) { assert Key(area, i) in Pointers(img, AreaSlots(img, area, 0)); }
  }

  /** From a pointer to a table through its header to its buckets. */
  lemma AreaInside(h: Heap, st: Store, v: set<Slot>, s: Slot, off: nat, t: Table)
    requires st.base > 0 && ClosedSlots(ImageOf(st), v) && s in v
    requires s in st.cells && st.cells[s] == ArrV(st.base + off) && TableAt(h, st, [], off, t)
    ensures Met(st, v, ArData(off))
    ensures t.buckets != [] ==> Pointers(ImageOf(st), AreaSlots(ImageOf(st), AreaOffset(off, t), 0)) <= v
  {
    hide AreaSlots, AreaOffset, KeptHashSize, ClosedSlots, AreaAt, NodeSlots, Waits;
    var img, d := ImageOf(st), ArData(off);
    assert Kids(img, s) == [d];
    KidsInside(img, v, s);
    assert d in Pointers(img, Kids(img, s));
    if t.buckets != [] {
      assert Kids(img, d) == AreaSlots(img, AreaOffset(off, t), 0);
      KidsInside(img, v, d);
    }
  }

  lemma TableFromSlot(h: Heap, st: Store, v: set<Slot>, s: Slot, q: nat)
    requires Inv(h, st, []) && st.base > 0 && ClosedSlots(ImageOf(st), v)
    requires s in v && s in st.cells && q in st.xlat && q in h && h[q].ArrObj? && st.cells[s] == ArrV(st.xlat[q])
    ensures ObjMet(h, st, v, q)
  {
    hide Inv, AreaSlots, AreaOffset, ClosedSlots, TableOk, TableAt, Met, TreeMet, Pointers;
    ImageOfTable(h, st, q);
    var off, t := st.xlat[q] - st.base, h[q].t;
    AreaInside(h, st, v, s, off, t);
    forall i: nat | i < |t.buckets| && !t.buckets[i].val.Undef?
      ensures Met(st, v, Elem(AreaOffset(off, t), i)) && Met(st, v, Key(AreaOffset(off, t), i))
    {
      BucketMet(h, st, v, off, t, i);
    }
  }

  lemma {:induction false} TreeFromNode(h: Heap, st: Store, v: set<Slot>, o: nat, a: Ast)
    requires st.base > 0 && ClosedSlots(ImageOf(st), v) && TreeAt(h, st, o, a)
    requires Pointers(ImageOf(st), NodeSlots(ImageOf(st), o)) <= v
    ensures TreeMet(st, v, o, a)
    decreases a
  {
    hide AreaSlots, ElemSlots;
    var img := ImageOf(st);
    if a.ValNode? {
      assert NodeVal(o) in NodeSlots(img, o);
    } else if a.Inner? {
      assert NodeSlots(img, o) == ChildSlots(o, 0, |a.kids|);
      forall i: nat | i < |a.kids|
        ensures Met(st, v, Child(o, i))
        ensures st.cells[Child(o, i)].Ptr? ==> TreeMet(st, v, Offset(img, st.cells[Child(o, i)].p), a.kids[i])
      {
        ChildAmong(o, 0, i, |a.kids|);
        var c := Child(o, i);
        assert ChildTreeAt(h, st, st.cells[c], a.kids[i]);
        if !a.kids[i].Absent? {
          assert c in Pointers(img, NodeSlots(img, o));
          assert Kids(img, c) == NodeSlots(img, Offset(img, st.cells[c].p));
          TreeFromNode(h, st, v, st.cells[c].p - st.base, a.kids[i]);
        }
      }
    }
  }

  /** A slot that was met and holds the translation of w leads to everything w leads to. */
  lemma ValueMet(h: Heap, st: Store, v: set<Slot>, u: Slot, w: Zval)
    requires Inv(h, st, []) && st.base > 0 && ClosedSlots(ImageOf(st), v)
    requires Met(st, v, u) && ValOk(h, w) && Translated(h, st.xlat, w, st.cells[u])
    ensures forall q :: q in ValPtrs(h, Copy, w) ==> ObjMet(h, st, v, q)
  {
    hide Inv, TreeMet, TableMet, TreeAt, ClosedSlots;
    forall q | q in ValPtrs(h, Copy, w) ensures ObjMet(h, st, v, q) {
      ZeroIsNoObject(h, st);
      ObjDepicted(h, st, q);
      if w.StrV? {
        assert u in v && st.cells[u] == StrV(st.xlat[q]);
      } else if w.ArrV? {
        TableFromSlot(h, st, v, u, q);
      } else if w.AstV? {
        var img, node := ImageOf(st), st.xlat[q] - st.base + SIZEOF_AST_REF;
        assert Kids(img, u) == NodeSlots(img, node);
        KidsInside(img, v, u);
        TreeFromNode(h, st, v, node, h[q].root);
      }
    }
  }

  lemma ZeroIsNoObject(h: Heap, st: Store)
    requires Inv(h, st, [])
    ensures 0 !in h
  {
  }

  lemma KidsInside(img: Image, v: set<Slot>, u: Slot)
    requires ClosedSlots(img, v) && u in v
    ensures u in img.cells && Pointers(img, Kids(img, u)) <= v
  {
  }

  // ---------------------------------------------------------------- from an object to the objects behind it

  /** Where the pointers of a table come from. */
  lemma {:induction false} TablePtr(h: Heap, bs: seq<Bucket>, q: nat)
    requires q in WorkPtrs(h, Copy, TableItems(bs))
    ensures exists i: nat ::
              i < |bs| && !bs[i].val.Undef? && (q in ValPtrs(h, Copy, bs[i].val) || (bs[i].key != 0 && q == bs[i].key))
  {
    if bs != [] {
      WorkPtrsAppend(h, Copy, BucketItems(bs[0]), TableItems(bs[1..]));
      if q in WorkPtrs(h, Copy, TableItems(bs[1..])) {
        TablePtr(h, bs[1..], q);
        var i: nat :| i < |bs[1..]| && !bs[1..][i].val.Undef?
                      && (q in ValPtrs(h, Copy, bs[1..][i].val) || (bs[1..][i].key != 0 && q == bs[1..][i].key));
        assert bs[i + 1] == bs[1..][i];
      } else {
        BucketPtr(h, bs[0], q);
        assert bs[0] == bs[0];
      }
    }
  }

  lemma BucketPtr(h: Heap, b: Bucket, q: nat)
    requires q in WorkPtrs(h, Copy, BucketItems(b))
    ensures !b.val.Undef? && (q in ValPtrs(h, Copy, b.val) || (b.key != 0 && q == b.key))
  {
    var val, key := [Val(b.val)], [Val(StrV(b.key))];
    assert val[1..] == [] && key[1..] == [];
    WorkPtrsAppend(h, Copy, key, val);
    if b.key == 0 { assert [] + val == val; }
  }

  lemma TableLeadsOn(h: Heap, st: Store, v: set<Slot>, p: nat, q: nat)
    requires Inv(h, st, []) && st.base > 0 && ClosedSlots(ImageOf(st), v)
    requires ObjMet(h, st, v, p) && h[p].ArrObj? && q in ObjPtrs(h, Copy, h[p])
    ensures ObjMet(h, st, v, q)
  {
    hide Inv, ClosedSlots, AreaOffset, TreeMet, WorkPtrs, TableItems, TableOk, TableAt, Translated, Met;
    var t, off := h[p].t, st.xlat[p] - st.base;
    TablePtr(h, t.buckets, q);
    var i: nat :| i < |t.buckets| && !t.buckets[i].val.Undef?
                  && (q in ValPtrs(h, Copy, t.buckets[i].val) || (t.buckets[i].key != 0 && q == t.buckets[i].key));
    ImageOfTable(h, st, p);
    BucketAt(h, st, off, t, i);
    var area := AreaOffset(off, t);
    assert Met(st, v, Elem(area, i)) && Met(st, v, Key(area, i));
    hide ObjMet;
    ValueMet(h, st, v, Elem(area, i), t.buckets[i].val);
    if t.buckets[i].key != 0 {
      ValueMet(h, st, v, Key(area, i), StrV(t.buckets[i].key));
    }
  }

  lemma {:induction false} KidsPtr(h: Heap, kids: seq<Ast>, q: nat)
    requires q in KidsPtrs(h, Copy, kids)
    ensures exists i: nat :: i < |kids| && q in AstPtrs(h, Copy, kids[i])
  {
    if q !in AstPtrs(h, Copy, kids[0]) {
      KidsPtr(h, kids[1..], q);
      var i: nat :| i < |kids[1..]| && q in AstPtrs(h, Copy, kids[1..][i]);
      assert kids[i + 1] == kids[1..][i];
    }
  }

  lemma {:induction false} TreeLeadsOn(h: Heap, st: Store, v: set<Slot>, o: nat, owner: nat, a: Ast, q: nat)
    requires Inv(h, st, []) && st.base > 0 && ClosedSlots(ImageOf(st), v)
    requires TreeAt(h, st, o, a) && TreeMet(st, v, o, a) && AstOk(h, owner, a) && q in AstPtrs(h, Copy, a)
    ensures ObjMet(h, st, v, q)
    decreases a
  {
    hide Inv, ClosedSlots, ObjMet;
    if a.ValNode? {
      ValueMet(h, st, v, NodeVal(o), a.val);
    } else if a.Inner? {
      KidsPtr(h, a.kids, q);
      var i: nat :| i < |a.kids| && q in AstPtrs(h, Copy, a.kids[i]);
      KidAt(h, owner, a.kids, i);
      var c := Child(o, i);
      assert ChildTreeAt(h, st, st.cells[c], a.kids[i]) && Met(st, v, c);
      TreeLeadsOn(h, st, v, st.cells[c].p - st.base, owner, a.kids[i], q);
    }
  }

  lemma ExpressionLeadsOn(h: Heap, st: Store, v: set<Slot>, p: nat, q: nat)
    requires Inv(h, st, []) && st.base > 0 && ClosedSlots(ImageOf(st), v)
    requires ObjMet(h, st, v, p) && h[p].RefObj? && q in ObjPtrs(h, Copy, h[p])
    ensures ObjMet(h, st, v, q)
  {
    hide Inv, ClosedSlots, TreeAt, TreeMet, AstOk, AstPtrs, TableMet;
    ObjDepicted(h, st, p);
    InvBounded(h, st, []);
    RootPresent(h, p);
    hide HeapOk, Bounded;
    TreeLeadsOn(h, st, v, st.xlat[p] - st.base + SIZEOF_AST_REF, p, h[p].root, q);
  }

  // ---------------------------------------------------------------- the theorem

  ghost function MetObjects(h: Heap, st: Store, v: set<Slot>): set<nat> {
    set p | p in st.xlat && ObjMet(h, st, v, p)
  }

  lemma MetIsClosed(h: Heap, st: Store, v: set<Slot>)
    requires Inv(h, st, []) && st.base > 0 && ClosedSlots(ImageOf(st), v)
    ensures Closed(h, Copy, MetObjects(h, st, v))
  {
    hide Inv, ClosedSlots, TableMet, TreeMet, AstPtrs, WorkPtrs;
    forall p | p in MetObjects(h, st, v) ensures p in h && ObjPtrs(h, Copy, h[p]) <= MetObjects(h, st, v) {
      forall q | q in ObjPtrs(h, Copy, h[p]) ensures q in MetObjects(h, st, v) {
        if h[p].ArrObj? { TableLeadsOn(h, st, v, p, q); }
        else if h[p].RefObj? { ExpressionLeadsOn(h, st, v, p, q); }
      }
    }
  }

  lemma {:induction false} RootPtr(h: Heap, roots: seq<Zval>, q: nat)
    requires q in WorkPtrs(h, Copy, RootItems(roots))
    ensures exists i: nat :: i < |roots| && q in ValPtrs(h, Copy, roots[i])
  {
    if roots != [] {
      var items := RootItems(roots);
      assert items == [Val(roots[0])] + RootItems(roots[1..]);
      assert items[1..] == RootItems(roots[1..]);
      if q in ValPtrs(h, Copy, roots[0]) {
        assert roots[0] == roots[0];
      } else {
        RootPtr(h, roots[1..], q);
        var i: nat :| i < |roots[1..]| && q in ValPtrs(h, Copy, roots[1..][i]);
        assert roots[i + 1] == roots[1..][i];
      }
    }
  }

  /** The serializer's walk from the root slots meets every slot of everything that was copied. */
  lemma EverythingIsMet(h: Heap, base: nat, header: nat, roots: seq<Zval>, start: seq<Slot>)
    requires Given(h, header, roots) && base > 0
    requires forall i: nat :: i < |roots| ==> Root(i) in start
    ensures var st := Persist(h, base, header, roots);
            forall p :: p in st.xlat ==> ObjMet(h, st, Marked(Visit(ImageOf(st), [], start)), p)
  {
    hide Inv, Visit, Persist, ObjMet, Closed, ClosedSlots, WorkPtrs;
    var st := Persist(h, base, header, roots);
    var img := ImageOf(st);
    var v := Marked(Visit(img, [], start));
    PersistInv(h, base, header, roots);
    PersistTakes(h, base, header, roots);
    VisitIsReachability(img, start);
    MetIsClosed(h, st, v);
    WalkIsReachability(h, Copy, RootItems(roots));
    forall q | q in WorkPtrs(h, Copy, RootItems(roots)) ensures q in MetObjects(h, st, v) {
      RootPtr(h, roots, q);
      var i: nat :| i < |roots| && q in ValPtrs(h, Copy, roots[i]);
      RootTranslated(h, st, i);
      RootMet(st, v, start, i);
      ValueMet(h, st, v, Root(i), roots[i]);
      MetMeans(h, st, v, q);
    }
    forall p | p in st.xlat ensures ObjMet(h, st, v, p) {
      assert p in MetObjects(h, st, v);
    }
  }

  lemma RootMet(st: Store, v: set<Slot>, start: seq<Slot>, i: nat)
    requires Root(i) in start && Root(i) in st.cells && Pointers(ImageOf(st), start) <= v
    ensures Met(st, v, Root(i))
  {
    if IsPointer(st.cells[Root(i)]) { assert Root(i) in Pointers(ImageOf(st), start); }
  }

  lemma MetMeans(h: Heap, st: Store, v: set<Slot>, q: nat)
    requires ObjMet(h, st, v, q)
    ensures q in MetObjects(h, st, v)
  {
  }
}
