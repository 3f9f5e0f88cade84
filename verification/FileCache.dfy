/**
 Serializing an image in place, and loading it again at another address, as the program does
 it: with tests on pointer values instead of a visited set.
 */
module FileCache {
  import opened ZendGraph
  import opened Arena
  import opened Relocation
  import opened StringPool
  import opened InternedPool

  // ---------------------------------------------------------------- specification

  /** What the slot holds in the file: an offset, a pool tag, or NULL for the shared bucket. */
  function Relocated(img: Image, tags: map<nat, nat>, s: Slot): Zval
    requires s in img.cells
  {
    match img.cells[s]
    case StrV(p) => if IsInternedString(img, s) then (if p in tags then StrV(tags[p]) else StrV(0))
           else StrV(Offset(img, p))
    case ArrV(p) => ArrV(Offset(img, p))
    case AstV(p) => AstV(Offset(img, p))
    case Ptr(p) => if IsUninit(img, s) then Ptr(0) else Ptr(Offset(img, p))
    case v => v
  }

  /** The slots once those of seen have been relocated. */
  function Painted(img: Image, seen: seq<Slot>): map<Slot, Zval> {
    map s | s in img.cells :: if s in seen then Relocated(img, PoolOf(img, seen).tags, s) else img.cells[s]
  }

  lemma PaintedStep(img: Image, seen: seq<Slot>, s: Slot)
    requires s in img.cells && s !in seen
    ensures Painted(img, seen + [s]) == Painted(img, seen)[s := Relocated(img, PoolOf(img, seen + [s]).tags, s)]
    ensures PoolOf(img, seen + [s]) == if IsInternedString(img, s)
              then Intern(PoolOf(img, seen), img.cells[s].p, RawAt(img, img.cells[s].p)) else PoolOf(img, seen)
  {
    assert (seen + [s])[..|seen|] == seen;
    PoolCovers(img, seen);
    hide PoolOf, RawAt;
    forall u | u in seen && u in img.cells
      ensures Relocated(img, PoolOf(img, seen + [s]).tags, u) == Relocated(img, PoolOf(img, seen).tags, u)
    {
    }
  }

  /** What holds of every image the passes work on: both address ranges lie above its size. */
  ghost predicate Loadable(img: Image, header: nat) {
    WellFormed(img, header) && header > 0 && img.size < img.base
  }

  lemma RelocatedSmall(img: Image, header: nat, s: Slot)
    requires Loadable(img, header) && LiveSlot(img, s) && IsPointer(img.cells[s]) && !IsUninit(img, s)
    ensures img.cells[s].p > img.size
    ensures !IsInternedString(img, s) ==> 0 < Offset(img, img.cells[s].p) <= img.size
    ensures img.cells[s].p == img.base + Offset(img, img.cells[s].p) && Offset(img, img.cells[s].p) in img.objs
  {
    assert PointsRight(img.base, img.objs, s, img.cells[s]);
    hide SlotsPresent, Dead;
    var off := Offset(img, img.cells[s].p);
    OffsetSmall(img, header, off);
  }

  lemma OffsetSmall(img: Image, header: nat, o: nat)
    requires Loadable(img, header) && o in img.objs
    ensures 0 < o <= img.size && o % 2 == 0
  {
    ObjBounds(img.objs, header, img.size, o);
    AreaIsLonger(img.objs[o]);
    hide SlotsPresent, PointsRight, Dead, Extent, LaidOut;
    EvenEight(o);
  }

  lemma EvenEight(o: nat)
    requires o % 8 == 0
    ensures o % 2 == 0
  {
    assert o == 2 * (4 * (o / 8));
  }

  lemma ObjBounds(objs: map<nat, AObj>, lo: nat, hi: nat, o: nat)
    requires LaidOut(objs, lo, hi) && o in objs
    ensures o % 8 == 0 && lo <= Begin(o, objs[o]) && Begin(o, objs[o]) + Extent(objs[o]) <= hi
  {
    hide Extent, Apart;
  }

  /** The buckets of an area lie inside it. */
  lemma AreaIsLonger(o: AObj)
    ensures o.AArea? ==> Extent(o) >= o.hashBytes
  {
  }

  /** The test on the pointer value tells exactly which slots have been relocated. */
  lemma GuardIsVisited(img: Image, header: nat, seen: seq<Slot>, s: Slot)
    requires Loadable(img, header) && AllLive(img, seen) && LiveSlot(img, s)
    requires IsPointer(img.cells[s]) && !IsUninit(img, s)
    ensures Painted(img, seen)[s].p <= img.size <==> s in seen
    ensures IsPointer(Painted(img, seen)[s])
  {
    RelocatedSmall(img, header, s);
    if s in seen && IsInternedString(img, s) {
      PoolBelowImage(img, header, seen);
      PoolCovers(img, seen);
    }
  }

  lemma {:induction false} AreaSlotsLive(img: Image, header: nat, area: nat, i: nat)
    requires Loadable(img, header)
    ensures AllLive(img, AreaSlots(img, area, i))
    decreases if area in img.objs && img.objs[area].AArea?
                && i < img.objs[area].used then img.objs[area].used - i else 0
  {
    if area in img.objs && img.objs[area].AArea? && i < img.objs[area].used {
      hide ElemSlots;
      AreaSlotsLive(img, header, area, i + 1);
      ElemSlotsLive(img, header, area, i);
      hide Loadable, LiveSlot;
    }
  }

  lemma ElemSlotsLive(img: Image, header: nat, area: nat, i: nat)
    requires Loadable(img, header) && area in img.objs && img.objs[area].AArea? && i < img.objs[area].used
    ensures AllLive(img, ElemSlots(img, area, i))
  {
    assert SlotsPresent(img.objs, img.cells, area);
    hide Loadable, LaidOut, PointsRight;
  }

  lemma HeaderSlotLive(img: Image, header: nat, o: nat)
    requires Loadable(img, header) && o in img.objs && img.objs[o].AHeader?
    ensures LiveSlot(img, ArData(o))
  {
    hide LaidOut, PointsRight;
    assert SlotsPresent(img.objs, img.cells, o);
  }

  lemma ArrayKidsLive(img: Image, header: nat, s: Slot)
    requires Loadable(img, header) && s in img.cells && img.cells[s].ArrV?
    requires PointsRight(img.base, img.objs, s, img.cells[s])
    ensures AllLive(img, Kids(img, s))
  {
    hide Loadable, LiveSlot;
    HeaderSlotLive(img, header, img.cells[s].p - img.base);
  }

  lemma ExpressionKidsLive(img: Image, header: nat, s: Slot)
    requires Loadable(img, header) && s in img.cells && img.cells[s].AstV?
    ensures AllLive(img, Kids(img, s))
  {
    hide Loadable, NodeSlots, AllLive;
    NodeSlotsLive(img, header, Offset(img, img.cells[s].p) + SIZEOF_AST_REF);
  }

  lemma PointerKidsLive(img: Image, header: nat, s: Slot)
    requires Loadable(img, header) && s in img.cells && img.cells[s].Ptr?
    ensures AllLive(img, Kids(img, s))
  {
    hide Loadable, NodeSlots, AreaSlots, LiveSlot;
    var off := Offset(img, img.cells[s].p);
    AreaSlotsLive(img, header, off, 0);
    NodeSlotsLive(img, header, off);
  }

  /** A live slot of an array, expression or child leads to an object of that kind. */
  lemma KidsLive(img: Image, header: nat, s: Slot)
    requires Loadable(img, header) && LiveSlot(img, s)
    ensures AllLive(img, Kids(img, s))
  {
    LivePointer(img, header, s);
    hide Loadable, PointsRight, AreaSlots, NodeSlots;
    match img.cells[s]
    case ArrV(_) => ArrayKidsLive(img, header, s);
    case AstV(_) => ExpressionKidsLive(img, header, s);
    case Ptr(_) => PointerKidsLive(img, header, s);
    case _ =>
  }

  lemma {:induction false} ChildSlotsLive(img: Image, node: nat, i: nat, n: nat)
    requires forall j: nat :: i <= j < n ==> Child(node, j) in img.cells
    ensures AllLive(img, ChildSlots(node, i, n))
    decreases n - i
  {
    if i < n { ChildSlotsLive(img, node, i + 1, n); }
  }

  lemma NodeSlotsLive(img: Image, header: nat, node: nat)
    requires Loadable(img, header)
    ensures AllLive(img, NodeSlots(img, node))
  {
    if node in img.objs {
      assert SlotsPresent(img.objs, img.cells, node);
      if img.objs[node].AInner? { ChildSlotsLive(img, node, 0, img.objs[node].children); }
    }
  }

  lemma {:induction false} VisitLive(img: Image, header: nat, seen: seq<Slot>, work: seq<Slot>)
    requires Loadable(img, header) && AllLive(img, seen) && AllLive(img, work)
    ensures AllLive(img, Visit(img, seen, work))
    decreases Left(img, seen), |work|
  {
    if work != [] {
      var s := work[0];
      assert LiveSlot(img, s);
      hide Loadable, LiveSlot;
      if !IsPointer(img.cells[s]) || s in seen {
        VisitLive(img, header, seen, work[1..]);
      } else {
        assert s in Left(img, seen) && s !in Left(img, seen + [s]);
        KidsLive(img, header, s);
        VisitLive(img, header, seen + [s], Kids(img, s) + work[1..]);
      }
    }
  }

  lemma LeftShrinks(img: Image, seen: seq<Slot>, seen': seq<Slot>)
    requires seen <= seen'
    ensures Left(img, seen') <= Left(img, seen)
  {
    forall s | s in seen ensures s in seen' {
      var i :| 0 <= i < |seen| && seen[i] == s;
      assert seen'[i] == s;
    }
  }

  lemma PaintedAt(img: Image, seen: seq<Slot>, s: Slot)
    requires s in img.cells
    ensures s in Painted(img, seen)
    ensures s !in seen ==> Painted(img, seen)[s] == img.cells[s]
  {
    hide PoolOf, Relocated;
  }

  lemma AllLiveStep(img: Image, seen: seq<Slot>, s: Slot)
    requires AllLive(img, seen) && LiveSlot(img, s)
    ensures AllLive(img, seen + [s])
  {
  }

  /** The relocated value, from the offset the pointer leads to. */
  lemma RelocatedIs(img: Image, tags: map<nat, nat>, s: Slot, off: nat, w: Zval)
    requires s in img.cells && IsPointer(img.cells[s]) && !IsUninit(img, s)
    requires img.cells[s].p == img.base + off && off in img.objs
    requires var v := img.cells[s];
             if v.StrV? && img.objs[off].AString? && img.objs[off].interned then v.p in tags && w == StrV(tags[v.p])
             else match v
               case StrV(_) => w == StrV(off)
               case ArrV(_) => w == ArrV(off)
               case AstV(_) => w == AstV(off)
               case Ptr(_) => w == Ptr(off)
               case _ => false
    ensures Relocated(img, tags, s) == w
    ensures IsInternedString(img, s) <==> img.cells[s].StrV? && img.objs[off].AString? && img.objs[off].interned
    ensures IsInternedString(img, s) ==> RawAt(img, img.cells[s].p) == img.objs[off].raw
  {
  }

  /** The strings of an image are complete, so the pool can take them. */
  lemma ImageString(img: Image, header: nat, o: nat)
    requires Loadable(img, header) && o in img.objs && img.objs[o].AString?
    ensures IsString(img.objs[o].raw)
  {
    hide LaidOut, PointsRight, IsString;
    assert SlotsPresent(img.objs, img.cells, o);
  }

  // ---------------------------------------------------------------- the serializing pass

  class Serializer {
    const img: Image             // the block as persisted; its shapes do not change
    ghost const header: nat
    var cells: map<Slot, Zval>   // the pointer fields of the copy being rewritten
    const strings: InternedPool
    ghost var trace: seq<Slot>   // slots relocated so far

    ghost predicate Valid()
      reads this, strings
    {
      && Loadable(img, header) && AllLive(img, trace) && cells == Painted(img, trace)
      && strings.Valid() && strings.View() == PoolOf(img, trace)
    }

    /** The pool starts with room for capacity bytes. */
    constructor (image: Image, ghost scriptHeader: nat, capacity: nat)
      requires Loadable(image, scriptHeader)
      ensures Valid() && img == image && header == scriptHeader && trace == [] && fresh(strings)
    {
      strings := new InternedPool(capacity);
      img, header, cells, trace := image, scriptHeader, image.cells, [];
    }

    predicate IsSerialized(p: nat) {
      p <= img.size
    }

    /** Overwrite slot s with its relocated value; an interned string goes to the pool. */
    method Relocate(s: Slot)
      requires Valid() && LiveSlot(img, s) && IsPointer(img.cells[s]) && s !in trace
      requires !IsUninit(img, s)
      modifies this, strings
      ensures Valid() && trace == old(trace) + [s]
      ensures cells[s] == Relocated(img, strings.xlat, s)
    {
      hide Loadable, AllLive, PoolOf, Painted, Intern, Relocated, RawAt, IsString, EntriesAt;
      RelocatedSmall(img, header, s);
      PaintedStep(img, trace, s);
      PaintedAt(img, trace, s);
      var v := cells[s];
      var off := v.p - img.base;
      var w := v;
      if v.StrV? && img.objs[off].AString? && img.objs[off].interned {
        ImageString(img, header, off);
        var tag := strings.SerializeInterned(v.p, img.objs[off].raw);
        w := StrV(tag);
      } else {
        match v {
          case StrV(_) => w := StrV(off);
          case ArrV(_) => w := ArrV(off);
          case AstV(_) => w := AstV(off);
          case Ptr(_) => w := Ptr(off);
        }
      }
      RelocatedIs(img, strings.xlat, s, v.p - img.base, w);
      cells := cells[s := w];
      trace := trace + [s];
      AllLiveStep(img, old(trace), s);
    }

    /** SERIALIZE_STR */
    method SerializeStr(s: Slot)
      requires Valid() && LiveSlot(img, s) && img.cells[s].StrV?
      modifies this, strings
      ensures Valid() && trace == Visit(img, old(trace), [s])
    {
      VisitOne(img, trace, s);
      if IsPointer(img.cells[s]) { GuardIsVisited(img, header, trace, s); }
      VisitNone(img, trace + [s]);
      if cells[s].p != 0 && !IsSerialized(cells[s].p) {
        Relocate(s);
      }
    }

    /** zend_file_cache_serialize_zval */
    method SerializeZval(s: Slot)
      requires Valid() && LiveSlot(img, s) && !img.cells[s].Ptr?
      modifies this, strings
      ensures Valid() && trace == Visit(img, old(trace), [s])
      decreases Left(img, trace), 2
    {
      hide Loadable, AllLive, PoolOf, PointsRight, EntriesAt, IsString;
      VisitOne(img, trace, s);
      VisitNone(img, trace);
      LiveTarget(img, header, s);
      PaintedSort(img, trace, s);
      ghost var before := trace;
      if cells[s].StrV? {
        SerializeStr(s);
      } else if cells[s].ArrV? || cells[s].AstV? {
        GuardIsVisited(img, header, trace, s);
        if !IsSerialized(cells[s].p) {
          Relocate(s);
          LeftStep(img, before, s);
          if cells[s].ArrV? {
            SerializeHash(cells[s].p);
          } else {
            SerializeAst(cells[s].p + SIZEOF_AST_REF);
          }
        }
      }
    }

    /** zend_file_cache_serialize_hash for the header at offset head; an already relocated
        data pointer means that the table has been walked. */
    method SerializeHash(head: nat)
      requires Valid() && head in img.objs && img.objs[head].AHeader?
      modifies this, strings
      ensures Valid() && trace == Visit(img, old(trace), [ArData(head)])
      decreases Left(img, trace), 3
    {
      hide Loadable, AllLive, PoolOf, PointsRight, EntriesAt, IsString;
      ghost var s, before := ArData(head), trace;
      HeaderTarget(img, header, head);
      VisitOne(img, trace, s);
      VisitNone(img, trace + [s]);
      PaintedAt(img, trace, s);
      if img.objs[head].uninit {
        UninitPainted(img, trace, s);
        cells := cells[ArData(head) := Ptr(0)];
        if s !in trace {
          trace := trace + [s];
          AllLiveStep(img, before, s);
        }
        return;
      }
      GuardIsVisited(img, header, trace, s);
      if IsSerialized(cells[ArData(head)].p) {
        return;
      }
      Relocate(ArData(head));
      LeftStep(img, before, s);
      SerializeArea(cells[ArData(head)].p);
    }

    /** The loop over the buckets. */
    method SerializeArea(area: nat)
      requires Valid() && area in img.objs && img.objs[area].AArea?
      modifies this, strings
      ensures Valid() && trace == Visit(img, old(trace), AreaSlots(img, area, 0))
      decreases Left(img, trace), 4
    {
      hide Loadable, AllLive, PoolOf, Painted, EntriesAt, IsString;
      ghost var start := trace;
      var i := 0;
      while i < img.objs[area].used
        invariant 0 <= i <= img.objs[area].used
        invariant Valid() && start <= trace
        invariant Visit(img, trace, AreaSlots(img, area, i)) == Visit(img, start, AreaSlots(img, area, 0))
      {
        LeftShrinks(img, start, trace);
        VisitAppend(img, trace, ElemSlots(img, area, i), AreaSlots(img, area, i + 1));
        SerializeElement(area, i);
        i := i + 1;
      }
      VisitNone(img, trace);
    }

    method SerializeElement(area: nat, i: nat)
      requires Valid() && area in img.objs && img.objs[area].AArea? && i < img.objs[area].used
      modifies this, strings
      ensures Valid() && trace == Visit(img, old(trace), ElemSlots(img, area, i))
      decreases Left(img, trace), 3
    {
      hide Loadable, AllLive, PoolOf, Painted, PointsRight, EntriesAt, IsString;
      ghost var start := trace;
      ElementLive(img, header, area, i);
      PaintedSort(img, trace, Elem(area, i));
      VisitNone(img, trace);
      if !cells[Elem(area, i)].Undef? {
        if !img.objs[area].packed {
          VisitAppend(img, trace, [Key(area, i)], [Elem(area, i)]);
          SerializeStr(Key(area, i));
          LeftShrinks(img, start, trace);
        } else {
          assert ElemSlots(img, area, i) == [Elem(area, i)];
        }
        SerializeZval(Elem(area, i));
      }
    }

    /** zend_file_cache_serialize_ast for the node at offset node. */
    method SerializeAst(node: nat)
      requires Valid() && IsNode(img.objs, node)
      modifies this, strings
      ensures Valid() && trace == Visit(img, old(trace), NodeSlots(img, node))
      decreases Left(img, trace), 4
    {
      hide Loadable, AllLive, PoolOf, PointsRight, EntriesAt, IsString;
      NodeTarget(img, header, node);
      match img.objs[node] {
        case AZvalNode(_) => SerializeZval(NodeVal(node));
        case AInner(_, n) =>
          ghost var start := trace;
          var i := 0;
          while i < n
            invariant 0 <= i <= n
            invariant Valid() && start <= trace
            invariant Visit(img, trace, ChildSlots(node, i, n)) == Visit(img, start, ChildSlots(node, 0, n))
          {
            LeftShrinks(img, start, trace);
            VisitAppend(img, trace, [Child(node, i)], ChildSlots(node, i + 1, n));
            SerializeChild(node, i);
            i := i + 1;
          }
          VisitNone(img, trace);
      }
    }

    method SerializeChild(node: nat, i: nat)
      requires Valid() && LiveSlot(img, Child(node, i)) && img.cells[Child(node, i)].Ptr?
      modifies this, strings
      ensures Valid() && trace == Visit(img, old(trace), [Child(node, i)])
      decreases Left(img, trace), 3
    {
      hide Loadable, AllLive, PoolOf, PointsRight, EntriesAt, IsString;
      ghost var s, now := Child(node, i), trace;
      VisitOne(img, trace, s);
      VisitNone(img, trace);
      PaintedSort(img, trace, s);
      if IsPointer(img.cells[s]) { GuardIsVisited(img, header, trace, s); }
      if cells[Child(node, i)].p != 0 && !IsSerialized(cells[Child(node, i)].p) {
        LiveTarget(img, header, s);
        Relocate(Child(node, i));
        LeftStep(img, now, s);
        SerializeAst(cells[Child(node, i)].p);
      }
    }
  }

  lemma VisitNone(img: Image, seen: seq<Slot>)
    ensures Visit(img, seen, []) == seen
  {
  }

  lemma LeftStep(img: Image, seen: seq<Slot>, s: Slot)
    requires s in img.cells && s !in seen
    ensures Left(img, seen + [s]) < Left(img, seen)
  {
    assert s in Left(img, seen) && s !in Left(img, seen + [s]);
  }

  /** Relocation changes no type, and leaves null pointers and plain values alone. */
  lemma PaintedSort(img: Image, seen: seq<Slot>, s: Slot)
    requires s in img.cells
    ensures s in Painted(img, seen)
    ensures var v, w := img.cells[s], Painted(img, seen)[s];
            && (v.Undef? <==> w.Undef?) && (v.StrV? <==> w.StrV?) && (v.ArrV? <==> w.ArrV?)
            && (v.AstV? <==> w.AstV?) && (v.Ptr? <==> w.Ptr?)
            && (s !in seen ==> w == v)
  {
    hide PoolOf;
  }

  /** Where the pointer of a live slot leads. */
  lemma LiveTarget(img: Image, header: nat, s: Slot)
    requires Loadable(img, header) && LiveSlot(img, s)
    ensures var v := img.cells[s];
            && (v.ArrV? ==>
                 IsPointer(v) && !IsUninit(img, s)
                 && Offset(img, v.p) in img.objs && img.objs[Offset(img, v.p)].AHeader?)
            && (v.AstV? ==> IsPointer(v) && !IsUninit(img, s) && IsNode(img.objs, Offset(img, v.p) + SIZEOF_AST_REF))
            && (v.Ptr? && s.Child? && v.p != 0 ==> IsNode(img.objs, Offset(img, v.p)))
            && (v.StrV? ==> !IsUninit(img, s))
  {
    assert PointsRight(img.base, img.objs, s, img.cells[s]);
    if s.ArData? && s.header in img.objs { assert SlotsPresent(img.objs, img.cells, s.header); }
  }

  lemma HeaderTarget(img: Image, header: nat, head: nat)
    requires Loadable(img, header) && head in img.objs && img.objs[head].AHeader?
    ensures var s := ArData(head);
            && LiveSlot(img, s) && img.cells[s].Ptr? && IsPointer(img.cells[s])
            && (IsUninit(img, s) <==> img.objs[head].uninit)
            && (!img.objs[head].uninit ==>
                  var area := Offset(img, img.cells[s].p);
                  area in img.objs && img.objs[area].AArea? && img.objs[area].used == img.objs[head].used)
  {
    var s := ArData(head);
    assert SlotsPresent(img.objs, img.cells, head);
    assert PointsRight(img.base, img.objs, s, img.cells[s]);
  }

  lemma UninitPainted(img: Image, seen: seq<Slot>, s: Slot)
    requires s in img.cells && IsUninit(img, s) && img.cells[s].Ptr?
    ensures Painted(img, seen)[s := Ptr(0)] == Painted(img, if s in seen then seen else seen + [s])
    ensures s !in seen ==> PoolOf(img, seen + [s]) == PoolOf(img, seen)
  {
    if s !in seen { PaintedStep(img, seen, s); }
    hide PoolOf;
  }

  lemma ElementLive(img: Image, header: nat, area: nat, i: nat)
    requires Loadable(img, header) && area in img.objs && img.objs[area].AArea? && i < img.objs[area].used
    ensures LiveSlot(img, Elem(area, i)) && !img.cells[Elem(area, i)].Ptr?
    ensures !img.cells[Elem(area, i)].Undef? ==> LiveSlot(img, Key(area, i)) && img.cells[Key(area, i)].StrV?
  {
    assert SlotsPresent(img.objs, img.cells, area);
  }

  lemma NodeTarget(img: Image, header: nat, node: nat)
    requires Loadable(img, header) && IsNode(img.objs, node)
    ensures img.objs[node].AZvalNode? ==> LiveSlot(img, NodeVal(node)) && !img.cells[NodeVal(node)].Ptr?
    ensures img.objs[node].AInner? ==> forall i: nat ::
              i < img.objs[node].children ==> LiveSlot(img, Child(node, i)) && img.cells[Child(node, i)].Ptr?
  {
    assert SlotsPresent(img.objs, img.cells, node);
  }
}
