/**
 Serialization replaces every absolute pointer of an image by an offset, and every interned
 string by a tag into a string pool; loading reverses this at another address.  Both walk the
 same graph of slots, and neither keeps a visited set: a relocated slot is recognized by its
 value.  The walk is specified here, with the slots it relocates in order.
 */
module Relocation {
  import opened Sequences
  import opened ZendGraph
  import opened Arena

  // ---------------------------------------------------------------- the slot graph

  /** The live slots of a bucket area; packed areas have no keys. */
  function AreaSlots(img: Image, area: nat, i: nat): seq<Slot>
    decreases if area in img.objs && img.objs[area].AArea?
                && i < img.objs[area].used then img.objs[area].used - i else 0
  {
    if area !in img.objs || !img.objs[area].AArea? || i >= img.objs[area].used then []
    else ElemSlots(img, area, i) + AreaSlots(img, area, i + 1)
  }

  function ElemSlots(img: Image, area: nat, i: nat): seq<Slot>
    requires area in img.objs && img.objs[area].AArea?
  {
    if Elem(area, i) in img.cells && img.cells[Elem(area, i)].Undef? then []
    else (if img.objs[area].packed then [] else [Key(area, i)]) + [Elem(area, i)]
  }

  function ChildSlots(node: nat, i: nat, n: nat): seq<Slot>
    decreases n - i
  {
    if i >= n then [] else [Child(node, i)] + ChildSlots(node, i + 1, n)
  }

  function NodeSlots(img: Image, node: nat): seq<Slot> {
    if node !in img.objs then []
    else match img.objs[node]
      case AZvalNode(_) => [NodeVal(node)]
      case AInner(_, n) => ChildSlots(node, 0, n)
      case _ => []
  }

  function Offset(img: Image, p: nat): nat {
    if p >= img.base then p - img.base else 0
  }

  predicate IsUninit(img: Image, s: Slot) {
    s.ArData? && s.header in img.objs && img.objs[s.header].AHeader? && img.objs[s.header].uninit
  }

  /** The slots that are walked because of the pointer in s. */
  function Kids(img: Image, s: Slot): seq<Slot>
    requires s in img.cells
  {
    match img.cells[s]
    case ArrV(p) => [ArData(Offset(img, p))]
    case AstV(p) => NodeSlots(img, Offset(img, p) + SIZEOF_AST_REF)
    case Ptr(p) =>
      if s.ArData? then (if IsUninit(img, s) then [] else AreaSlots(img, Offset(img, p), 0))
      else NodeSlots(img, Offset(img, p))
    case _ => []
  }

  predicate IsPointer(v: Zval) {
    (v.StrV? || v.ArrV? || v.AstV? || v.Ptr?) && v.p != 0
  }

  lemma {:induction false} ElemAmongArea(img: Image, area: nat, i: nat, k: nat)
    requires area in img.objs && img.objs[area].AArea? && i <= k < img.objs[area].used
    ensures forall u :: u in ElemSlots(img, area, k) ==> u in AreaSlots(img, area, i)
    decreases k - i
  {
    assert AreaSlots(img, area, i) == ElemSlots(img, area, i) + AreaSlots(img, area, i + 1);
    hide ElemSlots;
    if i < k { ElemAmongArea(img, area, i + 1, k); }
  }

  lemma {:induction false} ChildAmong(node: nat, i: nat, k: nat, n: nat)
    requires i <= k < n
    ensures Child(node, k) in ChildSlots(node, i, n)
    decreases k - i
  {
    if i < k { ChildAmong(node, i + 1, k, n); }
  }

  function Left(img: Image, seen: seq<Slot>): set<Slot> {
    set s | s in img.cells && s !in seen
  }

  /** The depth-first walk from work: the pointer slots in the order they are relocated. */
  function Visit(img: Image, seen: seq<Slot>, work: seq<Slot>): (r: seq<Slot>)
    ensures seen <= r
    decreases Left(img, seen), |work|
  {
    if work == [] then seen
    else
      var s := work[0];
      if s !in img.cells || !IsPointer(img.cells[s]) || s in seen then Visit(img, seen, work[1..])
      else
        assert s in Left(img, seen) && s !in Left(img, seen + [s]);
        Visit(img, seen + [s], Kids(img, s) + work[1..])
  }

  lemma {:induction false} VisitAppend(img: Image, seen: seq<Slot>, a: seq<Slot>, b: seq<Slot>)
    ensures Visit(img, seen, a + b) == Visit(img, Visit(img, seen, a), b)
    decreases Left(img, seen), |a|
  {
    if a == [] {
      assert a + b == b;
    } else {
      var s := a[0];
      assert (a + b)[0] == s && (a + b)[1..] == a[1..] + b;
      if s !in img.cells || !IsPointer(img.cells[s]) || s in seen {
        VisitAppend(img, seen, a[1..], b);
      } else {
        assert s in Left(img, seen) && s !in Left(img, seen + [s]);
        VisitAppend(img, seen + [s], Kids(img, s) + a[1..], b);
        assert Kids(img, s) + (a[1..] + b) == Kids(img, s) + a[1..] + b;
      }
    }
  }

  lemma VisitOne(img: Image, seen: seq<Slot>, s: Slot)
    ensures s in img.cells && IsPointer(img.cells[s]) && s !in seen ==>
              Visit(img, seen, [s]) == Visit(img, seen + [s], Kids(img, s))
    ensures s !in img.cells || !IsPointer(img.cells[s]) || s in seen ==> Visit(img, seen, [s]) == seen
  {
    assert [s][1..] == [];
    if s in img.cells { assert Kids(img, s) + [] == Kids(img, s); }
  }

  // ---------------------------------------------------------------- what the walk reaches

  ghost function Marked(seen: seq<Slot>): set<Slot> {
    set s | s in seen
  }

  /** The pointer slots among work. */
  ghost function Pointers(img: Image, work: seq<Slot>): set<Slot> {
    set s | s in work && s in img.cells && IsPointer(img.cells[s])
  }

  ghost predicate ClosedSlots(img: Image, c: set<Slot>) {
    forall s :: s in c ==> s in img.cells && Pointers(img, Kids(img, s)) <= c
  }

  lemma {:induction false} VisitCloses(img: Image, seen: seq<Slot>, work: seq<Slot>)
    requires forall s :: s in seen ==>
               s in img.cells && Pointers(img, Kids(img, s)) <= Marked(seen) + Pointers(img, work)
    requires NoRepeat(seen)
    ensures var end := Visit(img, seen, work);
            ClosedSlots(img, Marked(end)) && Pointers(img, work) <= Marked(end) && NoRepeat(end)
    decreases Left(img, seen), |work|
  {
    if work != [] {
      var s, rest := work[0], work[1..];
      assert Pointers(img, work) == Pointers(img, [s]) + Pointers(img, rest);
      if s !in img.cells || !IsPointer(img.cells[s]) || s in seen {
        VisitCloses(img, seen, rest);
      } else {
        assert s in Left(img, seen) && s !in Left(img, seen + [s]);
        assert Marked(seen + [s]) == Marked(seen) + {s};
        assert Pointers(img, Kids(img, s) + rest) == Pointers(img, Kids(img, s)) + Pointers(img, rest);
        VisitCloses(img, seen + [s], Kids(img, s) + rest);
        assert s in Visit(img, seen + [s], Kids(img, s) + rest);
      }
    }
  }

  lemma {:induction false} VisitStaysInside(img: Image, seen: seq<Slot>, work: seq<Slot>, c: set<Slot>)
    requires ClosedSlots(img, c) && Marked(seen) + Pointers(img, work) <= c
    ensures Marked(Visit(img, seen, work)) <= c
    decreases Left(img, seen), |work|
  {
    if work != [] {
      var s, rest := work[0], work[1..];
      assert Pointers(img, work) == Pointers(img, [s]) + Pointers(img, rest);
      if s !in img.cells || !IsPointer(img.cells[s]) || s in seen {
        VisitStaysInside(img, seen, rest, c);
      } else {
        assert s in Left(img, seen) && s !in Left(img, seen + [s]);
        assert s in Pointers(img, work);
        assert Pointers(img, Kids(img, s) + rest) == Pointers(img, Kids(img, s)) + Pointers(img, rest);
        VisitStaysInside(img, seen + [s], Kids(img, s) + rest, c);
      }
    }
  }

  /** The walk relocates every pointer slot reachable from the roots, each exactly once, and
      no other slot. */
  lemma VisitIsReachability(img: Image, roots: seq<Slot>)
    ensures var end := Visit(img, [], roots);
            && NoRepeat(end) && ClosedSlots(img, Marked(end)) && Pointers(img, roots) <= Marked(end)
            && forall c :: ClosedSlots(img, c) && Pointers(img, roots) <= c ==> Marked(end) <= c
  {
    VisitCloses(img, [], roots);
    forall c | ClosedSlots(img, c) && Pointers(img, roots) <= c ensures Marked(Visit(img, [], roots)) <= c {
      VisitStaysInside(img, [], roots, c);
    }
  }
}
