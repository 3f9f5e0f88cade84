/** The whole way of a value: measured, copied, serialized, loaded at another address. */
module Pipeline {
  import opened ZendGraph
  import opened Arena
  import opened SizeAccounting
  import opened PersistCopy
  import opened CopyIso
  import opened CopyTheorems
  import opened CopyImage
  import opened CopyReach
  import opened CopySizes
  import opened Relocation
  import opened StringPool
  import opened InternedPool
  import opened FileCache
  import opened FileLoad
  import PersistCalc
  import Persister

  function RootSlotsOf(n: nat): seq<Slot> {
    seq(n, i requires 0 <= i < n => Root(i))
  }

  /** w, in the loaded script, is the address the table has for the bytes of the string at p, from its header to
      its NUL. */
  ghost predicate StringCarried(h: Heap, table: StringTable, p: nat, w: Zval) {
    if p == 0 then w == StrV(0)
    else
      && p in h && h[p].StrObj? && InTable(table, h[p].raw)
      && w == StrV(table[h[p].raw[STRING_HEADER..|h[p].raw| - 1]])
  }

  /** w, in the loaded script, stands for v of the compiling process: a string of the same content,
      the copy of the same array or kept expression at its new place, NULL for a complex
      expression, and any other value itself. */
  ghost predicate Carried(h: Heap, xlat: map<nat, nat>, base: nat, buf: nat, table: StringTable, v: Zval, w: Zval) {
    match v
    case StrV(p) => StringCarried(h, table, p, w)
    case ArrV(p) => p in xlat && w.ArrV? && w.p + base == xlat[p] + buf
    case AstV(p) =>
      if p !in h || !h[p].RefObj? then w == Null
      else (match h[p].root
            case ValNode(_, _) => p in xlat && w.AstV? && w.p + base == xlat[p] + buf
            case Inner(EnumInit, _) => p in xlat && w.AstV? && w.p + base == xlat[p] + buf
            case Inner(ListKind, _) => w == Null
            case Inner(OtherKind, _) => w == Null
            case Absent => w == Null)
    case _ => w == v
  }

  /** The image of a string is an interned string with its bytes. */
  lemma StringImage(h: Heap, st: Store, s: Slot, p: nat)
    requires Inv(h, st, []) && p in st.xlat && p in h && h[p].StrObj?
    requires s in st.cells && st.cells[s] == StrV(st.xlat[p])
    ensures IsInternedString(ImageOf(st), s) && RawAt(ImageOf(st), st.xlat[p]) == h[p].raw
  {
    hide NodesImaged, RootsImaged;
    var off := ImageOffset(h, st, [], p);
  }

  /** A slot that holds the translation of v is loaded as what v stands for. */
  lemma TranslatedIsCarried(h: Heap, st: Store, buf: nat, table: StringTable, s: Slot, v: Zval, w: Zval)
    requires Inv(h, st, []) && st.base > 0 && s in st.cells && ValOk(h, v) && Translated(h, st.xlat, v, st.cells[s])
    requires if IsPointer(st.cells[s]) then RoundTripped(ImageOf(st), buf, table, s, w)
               && !IsUninit(ImageOf(st), s) else w == st.cells[s]
    ensures Carried(h, st.xlat, st.base, buf, table, v, w)
  {
    hide Inv, IsInternedString, RawAt, IsUninit, HeapOk;
    InvBounded(h, st, []);
    if v.StrV? {
      StringIsCarried(h, st, buf, table, s, v.p, w);
    } else if v.ArrV? || v.AstV? {
      XlatAbove(st, v.p);
      hide Bounded;
    }
  }

  lemma StringIsCarried(h: Heap, st: Store, buf: nat, table: StringTable, s: Slot, p: nat, w: Zval)
    requires Inv(h, st, []) && st.base > 0 && s in st.cells && ValOk(h, StrV(p))
    requires Translated(h, st.xlat, StrV(p), st.cells[s])
    requires if IsPointer(st.cells[s]) then RoundTripped(ImageOf(st), buf, table, s, w) else w == st.cells[s]
    ensures StringCarried(h, table, p, w)
  {
    hide Inv, IsInternedString, RawAt;
    InvBounded(h, st, []);
    if p != 0 {
      XlatAbove(st, p);
      StringImage(h, st, s, p);
      hide Bounded;
    }
  }

  lemma XlatAbove(st: Store, p: nat)
    requires Bounded(st)
    ensures p in st.xlat ==> st.base <= st.xlat[p]
  {
  }

  lemma ImageLoadable(h: Heap, base: nat, header: nat, roots: seq<Zval>)
    requires Given(h, header, roots) && Persist(h, base, header, roots).used < base
    ensures var img := ImageOf(Persist(h, base, header, roots));
            Loadable(img, header) && RootSlots(img, RootSlotsOf(|roots|))
  {
    hide Persist, WellFormed, Inv;
    var st := Persist(h, base, header, roots);
    var img := ImageOf(st);
    PersistedImageIsWellFormed(h, base, header, roots);
    PersistInv(h, base, header, roots);
    forall s | s in RootSlotsOf(|roots|) ensures LiveSlot(img, s) && !img.cells[s].Ptr? {
      RootTranslated(h, st, s.i);
    }
  }

  // ---------------------------------------------------------------- the loaded graph

  /** The slots of a loaded image: those in v were relocated, the others kept. */
  ghost predicate Reloaded(img: Image, buf: nat, table: StringTable, v: set<Slot>, cells: map<Slot, Zval>) {
    && cells.Keys == img.cells.Keys
    && (forall s :: s in v ==> s in img.cells && IsPointer(img.cells[s]) && RoundTripped(img, buf, table, s, cells[s]))
    && (forall s :: s in img.cells && s !in v ==> cells[s] == img.cells[s])
  }

  /** At offset off the loaded script holds table t, every key and element standing for the original's. */
  ghost predicate LoadedTable(h: Heap, xlat: map<nat, nat>, img: Image, buf: nat, table: StringTable,
                              cells: map<Slot, Zval>, off: nat, t: Table) {
    var area := AreaOffset(off, t);
    && off in img.objs && img.objs[off] == AHeader(t.buckets == [], t.packed, |t.buckets|) && ArData(off) in cells
    && if t.buckets == [] then cells[ArData(off)] == Ptr(UNINITIALIZED_BUCKET)
       else
         && cells[ArData(off)] == Ptr(buf + area)
         && area in img.objs && img.objs[area] == AArea(t.packed, 4 * KeptHashSize(t), |t.buckets|)
         && forall i: nat :: i < |t.buckets| && !t.buckets[i].val.Undef? ==>
              && Elem(area, i) in cells
              && Carried(h, xlat, img.base, buf, table, t.buckets[i].val, cells[Elem(area, i)])
              && Key(area, i) in cells && StringCarried(h, table, t.buckets[i].key, cells[Key(area, i)])
  }

  /** At offset o the loaded script holds the tree a: pointers lead to the children, values stand for the original's. */
  ghost predicate LoadedTree(h: Heap, xlat: map<nat, nat>, img: Image, buf: nat, table: StringTable,
                             cells: map<Slot, Zval>, o: nat, a: Ast)
    decreases a
  {
    && o in img.objs && img.objs[o] == NodeShape(a)
    && match a
       case Absent => false
       case ValNode(_, v) => NodeVal(o) in cells && Carried(h, xlat, img.base, buf, table, v, cells[NodeVal(o)])
       case Inner(_, kids) => forall i: nat :: i < |kids| ==>
         && Child(o, i) in cells && cells[Child(o, i)].Ptr?
         && if kids[i].Absent? then
              cells[Child(o, i)] == Ptr(0)
            else
              cells[Child(o, i)].p >= buf
              && LoadedTree(h, xlat, img, buf, table, cells, cells[Child(o, i)].p - buf, kids[i])
  }

  ghost predicate LoadedObj(h: Heap, xlat: map<nat, nat>, img: Image, buf: nat, table: StringTable,
                            cells: map<Slot, Zval>, p: nat) {
    && p in xlat && p in h && xlat[p] >= img.base
    && match h[p]
       case StrObj(raw) => InTable(table, raw)
       case ArrObj(t) => LoadedTable(h, xlat, img, buf, table, cells, xlat[p] - img.base, t)
       case RefObj(root) =>
         && (root.ValNode? || (root.Inner? && root.kind.EnumInit?))
         && LoadedTree(h, xlat, img, buf, table, cells, xlat[p] - img.base + SIZEOF_AST_REF, root)
  }

  lemma SlotCarried(h: Heap, st: Store, buf: nat, table: StringTable, v: set<Slot>, cells: map<Slot, Zval>, u: Slot,
                    w: Zval)
    requires Inv(h, st, []) && st.base > 0 && Reloaded(ImageOf(st), buf, table, v, cells)
    requires !u.ArData? && Met(st, v, u) && ValOk(h, w) && Translated(h, st.xlat, w, st.cells[u])
    ensures u in cells && Carried(h, st.xlat, st.base, buf, table, w, cells[u])
  {
    hide Inv, RoundTripped, Translated, Carried;
    TranslatedIsCarried(h, st, buf, table, u, w, cells[u]);
  }

  lemma KeyIsCarried(h: Heap, st: Store, buf: nat, table: StringTable, v: set<Slot>, cells: map<Slot, Zval>, u: Slot,
                     key: nat)
    requires Inv(h, st, []) && st.base > 0 && Reloaded(ImageOf(st), buf, table, v, cells)
    requires !u.ArData? && Met(st, v, u) && (key != 0 ==> ValOk(h, StrV(key)))
    requires Translated(h, st.xlat, StrV(key), st.cells[u])
    ensures u in cells && StringCarried(h, table, key, cells[u])
  {
    hide Inv, RoundTripped;
    if key != 0 { SlotCarried(h, st, buf, table, v, cells, u, StrV(key)); }
  }

  lemma BucketCarried(h: Heap, st: Store, buf: nat, table: StringTable, v: set<Slot>, cells: map<Slot, Zval>, off: nat,
                      t: Table, i: nat)
    requires Inv(h, st, []) && st.base > 0 && Reloaded(ImageOf(st), buf, table, v, cells)
    requires TableOk(h, t) && TableAt(h, st, [], off, t) && TableMet(st, v, off, t) && i < |t.buckets|
    requires !t.buckets[i].val.Undef?
    ensures var area := AreaOffset(off, t);
            && Elem(area, i) in cells
            && Carried(h, st.xlat, st.base, buf, table, t.buckets[i].val, cells[Elem(area, i)])
            && Key(area, i) in cells && StringCarried(h, table, t.buckets[i].key, cells[Key(area, i)])
  {
    BucketAt(h, st, off, t, i);
    hide Inv, Reloaded, TableOk, TableAt, Met, Translated, Carried, StringCarried, AreaOffset;
    var area := AreaOffset(off, t);
    SlotCarried(h, st, buf, table, v, cells, Elem(area, i), t.buckets[i].val);
    KeyIsCarried(h, st, buf, table, v, cells, Key(area, i), t.buckets[i].key);
  }

  /** The bucket pointer moves with the script, or stays at the shared empty bucket. */
  lemma HeaderCarried(h: Heap, st: Store, buf: nat, table: StringTable, v: set<Slot>, cells: map<Slot, Zval>, off: nat,
                      t: Table)
    requires Reloaded(ImageOf(st), buf, table, v, cells) && st.base > 0
    requires TableAt(h, st, [], off, t) && Met(st, v, ArData(off))
    ensures ArData(off) in cells
    ensures cells[ArData(off)] == Ptr(if t.buckets == [] then UNINITIALIZED_BUCKET else buf + AreaOffset(off, t))
  {
    hide AreaAt, AreaOffset, Waits;
  }

  lemma TableLoaded(h: Heap, st: Store, buf: nat, table: StringTable, v: set<Slot>, cells: map<Slot, Zval>, off: nat,
                    t: Table)
    requires Inv(h, st, []) && st.base > 0 && Reloaded(ImageOf(st), buf, table, v, cells)
    requires TableOk(h, t) && TableAt(h, st, [], off, t) && TableMet(st, v, off, t)
    ensures LoadedTable(h, st.xlat, ImageOf(st), buf, table, cells, off, t)
  {
    hide Inv, Reloaded, TableOk, Carried, StringCarried, AreaOffset, KeptHashSize, Met, Good;
    HeaderCarried(h, st, buf, table, v, cells, off, t);
    forall i: nat | i < |t.buckets| && !t.buckets[i].val.Undef?
      ensures var area := AreaOffset(off, t);
              && Elem(area, i) in cells
              && Carried(h, st.xlat, st.base, buf, table, t.buckets[i].val, cells[Elem(area, i)])
              && Key(area, i) in cells && StringCarried(h, table, t.buckets[i].key, cells[Key(area, i)])
    {
      BucketCarried(h, st, buf, table, v, cells, off, t, i);
    }
  }

  /** A child pointer moves with the script. */
  lemma ChildCarried(st: Store, buf: nat, table: StringTable, v: set<Slot>, cells: map<Slot, Zval>, c: Slot)
    requires Reloaded(ImageOf(st), buf, table, v, cells)
    requires c.Child? && Met(st, v, c) && st.cells[c].Ptr? && (st.cells[c].p == 0 || st.cells[c].p >= st.base)
    ensures c in cells && cells[c] == if st.cells[c].p == 0 then Ptr(0) else Ptr(st.cells[c].p - st.base + buf)
  {
  }

  lemma {:induction false} TreeLoaded(h: Heap, st: Store, buf: nat, table: StringTable, v: set<Slot>,
                                      cells: map<Slot, Zval>, o: nat, owner: nat, a: Ast)
    requires Inv(h, st, []) && st.base > 0 && Reloaded(ImageOf(st), buf, table, v, cells)
    requires TreeAt(h, st, o, a) && TreeMet(st, v, o, a) && AstOk(h, owner, a)
    ensures LoadedTree(h, st.xlat, ImageOf(st), buf, table, cells, o, a)
    decreases a
  {
    hide Inv, Reloaded, Carried, NodeShape;
    if a.ValNode? {
      SlotCarried(h, st, buf, table, v, cells, NodeVal(o), a.val);
    } else if a.Inner? {
      forall i: nat | i < |a.kids|
        ensures Child(o, i) in cells && cells[Child(o, i)].Ptr?
        ensures a.kids[i].Absent? ==> cells[Child(o, i)] == Ptr(0)
        ensures !a.kids[i].Absent? ==>
                  cells[Child(o, i)].p >= buf
                  && LoadedTree(h, st.xlat, ImageOf(st), buf, table, cells, cells[Child(o, i)].p - buf, a.kids[i])
      {
        var c := Child(o, i);
        assert ChildTreeAt(h, st, st.cells[c], a.kids[i]) && Met(st, v, c);
        KidAt(h, owner, a.kids, i);
        ChildCarried(st, buf, table, v, cells, c);
        if !a.kids[i].Absent? {
          TreeLoaded(h, st, buf, table, v, cells, st.cells[c].p - st.base, owner, a.kids[i]);
        }
      }
    }
  }

  /** A copied string was met through some slot, so the loader has found a place for its bytes. */
  lemma StringLoaded(h: Heap, st: Store, buf: nat, table: StringTable, v: set<Slot>, cells: map<Slot, Zval>, p: nat)
    requires Inv(h, st, []) && Reloaded(ImageOf(st), buf, table, v, cells) && ObjMet(h, st, v, p) && h[p].StrObj?
    ensures InTable(table, h[p].raw)
  {
    hide Inv, IsInternedString, RawAt;
    var u :| u in v && u in st.cells && st.cells[u] == StrV(st.xlat[p]);
    StringImage(h, st, u, p);
  }

  lemma ObjLoaded(h: Heap, st: Store, buf: nat, table: StringTable, v: set<Slot>, cells: map<Slot, Zval>, p: nat)
    requires Inv(h, st, []) && st.base > 0 && Reloaded(ImageOf(st), buf, table, v, cells) && ObjMet(h, st, v, p)
    ensures LoadedObj(h, st.xlat, ImageOf(st), buf, table, cells, p)
  {
    hide Inv, Reloaded, TableMet, TreeMet, TreeAt, LoadedTree, LoadedTable, Kept, AstOk, TableOk;
    if h[p].StrObj? {
      StringLoaded(h, st, buf, table, v, cells, p);
    } else if h[p].ArrObj? {
      ImageOfTable(h, st, p);
      TableLoaded(h, st, buf, table, v, cells, st.xlat[p] - st.base, h[p].t);
    } else if h[p].RefObj? {
      ObjDepicted(h, st, p);
      InvBounded(h, st, []);
      RootPresent(h, p);
      TreeLoaded(h, st, buf, table, v, cells, st.xlat[p] - st.base + SIZEOF_AST_REF, p, h[p].root);
    }
  }

  /**
   The values of a script, stored by one process and loaded by another.  The block allocated for the
   measured size is big enough unless a copied expression holds a childless node or the size does not
   fit in 32 bits; the pool stays below the image; what was copied
   is what the roots lead to, each object to its own place; every root stands for the value it was;
   every table and expression is there with all keys, elements and nodes standing for the
   original's; and a string stands for a string because the address in its slot leads to a string of
   the same content, in the pool behind the block or where the loading process already had it.
   */
  method StoreThenLoad(h: Heap, base: nat, header: nat, roots: seq<Zval>, buf: nat, known: StringTable,
                       ghost held: map<nat, seq<byte>>)
    returns (measured: nat, img: Image, xlat: map<nat, nat>,
             cells: map<Slot, Zval>, table: StringTable, strings: seq<byte>)
    requires Given(h, header, roots) && KnownHeld(known, held)
    requires Persist(h, base, header, roots).used < base && Persist(h, base, header, roots).used < buf
    requires forall text :: text in known ==> known[text] > Persist(h, base, header, roots).used
    ensures WorkOk(h, RootItems(roots))
    ensures NoChildlessCopied(h, RootItems(roots)) ==> img.size <= header + Measured(h, RootItems(roots))
    ensures measured == (header + Measured(h, RootItems(roots))) % 0x1_0000_0000
    ensures NoChildlessCopied(h, RootItems(roots)) && header + Measured(h, RootItems(roots)) + 4096 < 0x1_0000_0000 ==>
              img.size + 63 <= (measured + 4096) % 0x1_0000_0000
    ensures img.base == base && cells.Keys == img.cells.Keys
    ensures xlat.Keys == Elems(Walk(h, Copy, [], RootItems(roots)))
    ensures forall p, q :: p in xlat && q in xlat && xlat[p] == xlat[q] ==> p == q
    ensures forall i: nat :: i < |roots| ==>
              Root(i) in cells && Carried(h, xlat, base, buf, table, roots[i], cells[Root(i)])
    ensures forall p :: p in xlat ==> LoadedObj(h, xlat, img, buf, table, cells, p)
    ensures HoldsStrings(held, strings, buf + img.size, table) && |strings| + header <= img.size
  {
    hide Persist, Inv, Visit, RoundTripped, PRun, Loadable, RootSlots, Measured, Carried, Translated, Given, LoadedObj;
    hide ObjMet, Walk;
    hide HoldsStrings, KnownHeld;
    ghost var st := Persist(h, base, header, roots);
    PersistInv(h, base, header, roots);
    PersistTakes(h, base, header, roots);
    MeasuredIsEnough(h, base, header, roots);
    GivenHeap(h, header, roots);
    NoSharedImage(h, st);
    BlockIsEnough(h, base, header, roots);
    measured := PersistCalc.ScriptPersistCalc(h, header, roots);
    img, xlat := Persister.ScriptPersist(h, base, header, roots);
    ImageLoadable(h, base, header, roots);
    var start := RootSlotsOf(|roots|);
    cells, table, strings := StoreAndLoad(img, header, start, buf, known, held);
    ghost var v := Marked(Visit(img, [], start));
    VisitPointers(img, [], start);
    VisitIsReachability(img, start);
    forall i: nat | i < |roots| ensures Root(i) in start { assert start[i] == Root(i); }
    EverythingIsMet(h, base, header, roots, start);
    forall i: nat | i < |roots|
      ensures Root(i) in cells && Carried(h, xlat, base, buf, table, roots[i], cells[Root(i)])
    {
      RootTranslated(h, st, i);
      RootMet(st, v, start, i);
      SlotCarried(h, st, buf, table, v, cells, Root(i), roots[i]);
    }
    forall p | p in xlat ensures LoadedObj(h, xlat, img, buf, table, cells, p) {
      ObjLoaded(h, st, buf, table, v, cells, p);
    }
  }

  /** The string at the address a loaded slot holds is the original, byte by byte. */
  lemma LoadedString(h: Heap, held: map<nat, seq<byte>>, strings: seq<byte>, at: nat, table: StringTable, p: nat,
                     w: Zval)
    requires HeapOk(h) && p != 0 && StringCarried(h, table, p, w) && HoldsStrings(held, strings, at, table)
    ensures var raw := h[p].raw;
            || (w.p in held && |held[w.p]| == |raw|
                && forall k :: STRING_HEADER <= k < |raw| ==> held[w.p][k] == raw[k])
            || (w.p >= at && w.p - at + |raw| <= |strings|
                && LittleEndian(strings[w.p - at + LENGTH_AT..w.p - at + STRING_HEADER]) + STRING_OVERHEAD == |raw|
                && forall k :: STRING_HEADER <= k < |raw| ==> strings[w.p - at + k] == raw[k])
  {
    hide LittleEndian;
    var raw := h[p].raw;
    var text := raw[STRING_HEADER..|raw| - 1];
    assert ObjOk(h, p);
    assert HoldsString(held, strings, at, text, w.p);
    forall k | STRING_HEADER <= k < |raw| - 1
      ensures w.p in held && Spells(held[w.p], text) ==> held[w.p][k] == raw[k]
      ensures w.p >= at && TextIn(strings, w.p - at, text) ==> strings[w.p - at + k] == raw[k]
    {
      var j: nat := k - STRING_HEADER;
      assert raw[k] == text[j];
      assert w.p in held && Spells(held[w.p], text) ==> held[w.p][STRING_HEADER + j] == text[j];
      assert w.p >= at && TextIn(strings, w.p - at, text) ==> strings[w.p - at + (STRING_HEADER + j)] == text[j];
    }
  }

  /** Two loaded slots hold one address exactly when their strings agree in length and in every byte. */
  lemma StringsShared(h: Heap, held: map<nat, seq<byte>>, strings: seq<byte>, at: nat, table: StringTable,
                      p: nat, w: Zval, p': nat, w': Zval)
    requires HeapOk(h) && HoldsStrings(held, strings, at, table)
    requires p != 0 && p' != 0 && StringCarried(h, table, p, w) && StringCarried(h, table, p', w')
    requires forall a :: a in held ==> a < at || at + |strings| <= a
    ensures w.p == w'.p <==> |h[p].raw| == |h[p'].raw|
                             && forall k :: STRING_HEADER <= k < |h[p].raw| ==> h[p].raw[k] == h[p'].raw[k]
  {
    hide LittleEndian, HoldsStrings;
    var a, b := h[p].raw, h[p'].raw;
    if w.p == w'.p {
      LoadedString(h, held, strings, at, table, p, w);
      LoadedString(h, held, strings, at, table, p', w');
    } else if |a| == |b| && forall k :: STRING_HEADER <= k < |a| ==> a[k] == b[k] {
      SameBytes(h, table, p, w, p', w');
    }
  }

  lemma SameBytes(h: Heap, table: StringTable, p: nat, w: Zval, p': nat, w': Zval)
    requires p != 0 && p' != 0 && StringCarried(h, table, p, w) && StringCarried(h, table, p', w')
    requires |h[p].raw| == |h[p'].raw|
    requires forall k :: STRING_HEADER <= k < |h[p].raw| ==> h[p].raw[k] == h[p'].raw[k]
    ensures w == w'
  {
    var a, b := h[p].raw, h[p'].raw;
    assert a[STRING_HEADER..|a| - 1] == b[STRING_HEADER..|b| - 1];
  }

  lemma GivenHeap(h: Heap, header: nat, roots: seq<Zval>)
    requires Given(h, header, roots)
    ensures HeapOk(h) && forall i :: 0 <= i < |roots| ==> ValOk(h, roots[i])
  {
  }
}
