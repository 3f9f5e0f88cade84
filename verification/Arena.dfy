/**
 The persisted form of values: one contiguous block of memory in which every object sits at
 an offset, and every pointer field is a slot.  While the block is in use the slots hold
 absolute addresses; in a file they hold offsets and pool tags.
 */
module Arena {
  import opened MachineWords
  import opened ZendGraph

  /** The address of the static bucket every uninitialized table shares. */
  const UNINITIALIZED_BUCKET: nat := 0x7FFF_0000_0000

  /** What the copied bytes fix about an object; its pointer fields are slots. */
  datatype AObj =
    | AString(interned: bool, raw: seq<byte>)
    | AHeader(uninit: bool, packed: bool, used: nat)
    | AArea(packed: bool, hashBytes: nat, used: nat)
    | ARef
    | AZvalNode(isConstant: bool)
    | AInner(kind: InnerKind, children: nat)

  /** Pointer fields, named by the offset of the object they belong to. */
  datatype Slot =
    | Root(i: nat)
    | ArData(header: nat)
    | Key(area: nat, i: nat)
    | Elem(area: nat, i: nat)
    | NodeVal(node: nat)
    | Child(node: nat, i: nat)

  datatype Image = Image(base: nat, size: nat, objs: map<nat, AObj>, cells: map<Slot, Zval>)

  /** The bytes an object occupies: start and length.  An area is addressed by its first
      bucket; its hash part lies in front. */
  function Begin(off: nat, o: AObj): int {
    if o.AArea? then off - o.hashBytes else off
  }

  function Extent(o: AObj): nat {
    match o
    case AString(_, raw) => Aligned(|raw|)
    case AHeader(_, _, _) => SIZEOF_ARRAY
    case AArea(packed, hashBytes, used) => Aligned(hashBytes + ElementBytes(packed, used))
    case ARef => SIZEOF_AST_REF
    case AZvalNode(_) => SIZEOF_AST_ZVAL
    case AInner(ListKind, n) => 24 + SIZEOF_POINTER * ((n + UINT32 - 1) % UINT32)
    case AInner(EnumInit, n) => 32
    case AInner(OtherKind, n) => 16 + SIZEOF_POINTER * ((n + UINT32 - 1) % UINT32)
  }

  ghost predicate Apart(objs: map<nat, AObj>, a: nat, b: nat)
    requires a in objs && b in objs
  {
    || Begin(a, objs[a]) + Extent(objs[a]) <= Begin(b, objs[b])
    || Begin(b, objs[b]) + Extent(objs[b]) <= Begin(a, objs[a])
  }

  /** Nonempty objects lie on 8-byte boundaries between lo and hi and do not overlap. */
  ghost predicate LaidOut(objs: map<nat, AObj>, lo: nat, hi: nat) {
    && (forall o :: o in objs ==>
          o % 8 == 0 && Extent(objs[o]) > 0 && lo <= Begin(o, objs[o]) && Begin(o, objs[o]) + Extent(objs[o]) <= hi)
    && (forall a, b :: a in objs && b in objs && a != b ==> Apart(objs, a, b))
  }

  predicate IsNode(objs: map<nat, AObj>, o: nat) {
    o in objs && (objs[o].AZvalNode? || objs[o].AInner?)
  }

  /** Every pointer field of an object is a slot of the image, and a string is complete. */
  ghost predicate SlotsPresent(objs: map<nat, AObj>, cells: map<Slot, Zval>, o: nat)
    requires o in objs
  {
    match objs[o]
    case AHeader(_, _, _) => ArData(o) in cells && cells[ArData(o)].Ptr?
    case AArea(_, _, used) => forall i: nat :: i < used ==>
           Elem(o, i) in cells
           && !cells[Elem(o, i)].Ptr? && Key(o, i) in cells && cells[Key(o, i)].StrV?
    case AZvalNode(_) => NodeVal(o) in cells && !cells[NodeVal(o)].Ptr?
    case AInner(_, n) => forall i: nat :: i < n ==> Child(o, i) in cells && cells[Child(o, i)].Ptr?
    case AString(_, raw) => IsString(raw)
    case ARef => true
  }

  /** The slot holds the absolute address of an object of the kind its type announces. */
  ghost predicate PointsRight(base: nat, objs: map<nat, AObj>, s: Slot, v: Zval) {
    match v
    case StrV(p) => (p == 0 && s.Key?) || (p >= base && p - base in objs && objs[p - base].AString?)
    case ArrV(p) => p >= base && p - base in objs && objs[p - base].AHeader?
    case AstV(p) => p >= base && p - base in objs && objs[p - base].ARef? && IsNode(objs, p - base + SIZEOF_AST_REF)
    case Ptr(p) =>
      if s.ArData? then
        s.header in objs && objs[s.header].AHeader? &&
        if objs[s.header].uninit then p == UNINITIALIZED_BUCKET
        else p >= base && p - base in objs && objs[p - base].AArea? &&
             objs[p - base].used == objs[s.header].used && objs[p - base].packed == objs[s.header].packed
      else s.Child? && (p == 0 || (p >= base && IsNode(objs, p - base)))
    case _ => true
  }

  /** The key of a deleted bucket: neither pass touches it again. */
  predicate Dead(cells: map<Slot, Zval>, s: Slot) {
    s.Key? && Elem(s.area, s.i) in cells && cells[Elem(s.area, s.i)].Undef?
  }

  /** The object a slot belongs to; a root belongs to the caller. */
  function Owner(s: Slot): int {
    match s
    case Root(_) => -1
    case ArData(o) => o
    case Key(o, _) => o
    case Elem(o, _) => o
    case NodeVal(o) => o
    case Child(o, _) => o
  }

  /** Objects lie aligned and disjoint between the header and the end; every pointer field is
      a slot; every live slot points at an object of the right kind. */
  ghost predicate WellFormed(img: Image, header: nat) {
    && header <= img.size && LaidOut(img.objs, header, img.size)
    && (forall o :: o in img.objs ==> SlotsPresent(img.objs, img.cells, o))
    && (forall u :: u in img.cells && !Dead(img.cells, u) ==> PointsRight(img.base, img.objs, u, img.cells[u]))
  }
}
