/**
 The values a script holds before it is persisted: strings, arrays and constant expressions
 in process memory, reachable from each other through pointers with arbitrary sharing.
 Sizes are those of a 64-bit build; ZEND_ALIGNED_SIZE rounds up to 8.
 */
module ZendGraph {
  import HashCompact
  import opened MachineWords

  newtype byte = x: int | 0 <= x < 256

  /** zend_accel_script_persist_calc measures, zend_accel_script_persist copies. */
  datatype Pass = Measure | Copy

  const SIZEOF_ARRAY: nat := 56
  const SIZEOF_BUCKET: nat := 32
  const SIZEOF_ZVAL: nat := 16
  const SIZEOF_AST_REF: nat := 8
  const SIZEOF_AST_ZVAL: nat := 24
  const SIZEOF_POINTER: nat := 8
  const STRING_HEADER: nat := 24     // reference count, flags, hash and length of a string
  const LENGTH_AT: nat := 16
  const STRING_OVERHEAD: nat := 25   // header and terminating NUL
  const PACKED_HASH_SIZE: nat := 2

  function Aligned(n: nat): (r: nat)
    ensures n <= r < n + 8 && r % 8 == 0
  {
    (n + 7) / 8 * 8
  }

  /** A zval; p is an address.  Ptr is a bare pointer field of a copied structure. */
  datatype Zval = Undef | Null | Plain(bits: nat) | StrV(p: nat) | ArrV(p: nat) | AstV(p: nat) | Ptr(p: nat)

  /** key is the address of the key string, 0 for an integer key. */
  datatype Bucket = Bucket(key: nat, val: Zval)

  datatype Table = Table(uninit: bool, packed: bool, hashSize: nat, buckets: seq<Bucket>)

  datatype InnerKind = ListKind | EnumInit | OtherKind

  /** A syntax node; Absent is a null child pointer.  A constant expression owns its nodes,
      so they form a tree. */
  datatype Ast = Absent | ValNode(isConstant: bool, val: Zval) | Inner(kind: InnerKind, kids: seq<Ast>)

  /** A little-endian number. */
  function LittleEndian(b: seq<byte>): nat {
    if b == [] then 0 else b[0] as nat + 256 * LittleEndian(b[1..])
  }

  /** The image of a zend_string: header, bytes, terminating NUL; the header holds the length. */
  predicate IsString(raw: seq<byte>) {
    && |raw| >= STRING_OVERHEAD && raw[|raw| - 1] == 0
    && LittleEndian(raw[LENGTH_AT..STRING_HEADER]) == |raw| - STRING_OVERHEAD
  }

  /** raw is a string with the text: its bytes from the header on are those of text, then comes a NUL. */
  ghost predicate Spells(raw: seq<byte>, text: seq<byte>) {
    && |raw| == STRING_HEADER + |text| + 1 && raw[STRING_HEADER + |text|] == 0
    && forall k: nat :: k < |text| ==> raw[STRING_HEADER + k] == text[k]
  }

  /** What makes two strings equal: their bytes without header and NUL. */
  function Content(raw: seq<byte>): seq<byte> {
    if |raw| < STRING_OVERHEAD then [] else raw[STRING_HEADER..|raw| - 1]
  }

  /** The length field: 8 bytes from offset 16 on, the lowest first. */
  lemma LengthField(raw: seq<byte>)
    requires IsString(raw)
    ensures |raw| - 25 == raw[16] as nat + 0x100 * raw[17] as nat + 0x1_0000 * raw[18] as nat
                          + 0x100_0000 * raw[19] as nat + 0x1_0000_0000 * raw[20] as nat
                          + 0x100_0000_0000 * raw[21] as nat + 0x1_0000_0000_0000 * raw[22] as nat
                          + 0x100_0000_0000_0000 * raw[23] as nat
  {
    LowDigits(raw[LENGTH_AT..STRING_HEADER]);
    HighDigits(raw[LENGTH_AT..STRING_HEADER][4..]);
  }

  lemma LowDigits(b: seq<byte>)
    requires |b| == 8
    ensures LittleEndian(b) == b[0] as nat + 0x100 * b[1] as nat + 0x1_0000 * b[2] as nat + 0x100_0000 * b[3] as nat
                               + 0x1_0000_0000 * LittleEndian(b[4..])
  {
    assert LittleEndian(b[3..]) == b[3] as nat + 256 * LittleEndian(b[4..]) by { assert b[3..][1..] == b[4..]; }
    assert LittleEndian(b[2..]) == b[2] as nat + 256 * LittleEndian(b[3..]) by { assert b[2..][1..] == b[3..]; }
    assert LittleEndian(b[1..]) == b[1] as nat + 256 * LittleEndian(b[2..]) by { assert b[1..][1..] == b[2..]; }
  }

  lemma HighDigits(b: seq<byte>)
    requires |b| == 4
    ensures LittleEndian(b) == b[0] as nat + 0x100 * b[1] as nat + 0x1_0000 * b[2] as nat + 0x100_0000 * b[3] as nat
  {
    assert LittleEndian(b[3..]) == b[3] as nat by { assert b[3..][1..] == []; }
    assert LittleEndian(b[2..]) == b[2] as nat + 256 * LittleEndian(b[3..]) by { assert b[2..][1..] == b[3..]; }
    assert LittleEndian(b[1..]) == b[1] as nat + 256 * LittleEndian(b[2..]) by { assert b[1..][1..] == b[2..]; }
  }

  lemma ContentSpells(raw: seq<byte>)
    requires IsString(raw)
    ensures Spells(raw, Content(raw)) && Content(raw) == raw[STRING_HEADER..|raw| - 1]
  {
  }

  /** raw is the byte image of a zend_string.  A RefObj is a zend_ast_ref with its tree. */
  datatype Obj = StrObj(raw: seq<byte>) | ArrObj(t: Table) | RefObj(root: Ast)

  type Heap = map<nat, Obj>

  // ---------------------------------------------------------------- well-formed heaps

  ghost predicate ValOk(h: Heap, v: Zval) {
    match v
    case StrV(p) => p in h && h[p].StrObj?
    case ArrV(p) => p in h && h[p].ArrObj?
    case AstV(p) => p in h && h[p].RefObj?
    case Ptr(_) => false
    case _ => true
  }

  ghost predicate BucketOk(h: Heap, t: Table, b: Bucket) {
    ValOk(h, b.val) && (b.key != 0 ==> !t.packed && b.key in h && h[b.key].StrObj?)
  }

  ghost predicate TableOk(h: Heap, t: Table) {
    && (forall i :: 0 <= i < |t.buckets| ==> BucketOk(h, t, t.buckets[i]))
    && (t.uninit ==> t.buckets == [])
    && (!t.packed && t.buckets != [] ==> HashCompact.PowerOfTwo(t.hashSize) && t.hashSize >= HashCompact.HT_MIN_SIZE)
  }

  /** The numbers of r fall from an expression to the ones nested directly in its literals. */
  ghost predicate TreeRanked(r: map<nat, nat>, owner: nat, a: Ast)
    decreases a
  {
    match a
    case Absent => true
    case ValNode(_, v) => v.AstV? ==> v.p in r && owner in r && r[v.p] < r[owner]
    case Inner(_, kids) => forall i :: 0 <= i < |kids| ==> TreeRanked(r, owner, kids[i])
  }

  ghost predicate Ranks(h: Heap, r: map<nat, nat>) {
    forall p :: p in h && h[p].RefObj? ==> TreeRanked(r, p, h[p].root)
  }

  /** Some numbering of that kind, if there is one. */
  ghost function Ranking(h: Heap): map<nat, nat> {
    if exists r: map<nat, nat> :: Ranks(h, r) then var r: map<nat, nat> :| Ranks(h, r); r else map[]
  }

  ghost function Rank(h: Heap, p: nat): nat {
    if p in Ranking(h) then Ranking(h)[p] else 0
  }

  /** The walk over the expressions nested directly in the literals of an expression has no
      visited check, so it must not come back to one it is in: the nested ones rank lower. */
  ghost predicate AstOk(h: Heap, owner: nat, a: Ast)
    decreases a
  {
    match a
    case Absent => true
    case ValNode(_, v) => ValOk(h, v) && (v.AstV? ==> Rank(h, v.p) < Rank(h, owner))
    case Inner(kind, kids) => (kind.EnumInit? ==> |kids| == 3) && |kids| < UINT32 && KidsOk(h, owner, kids)
  }

  ghost predicate KidsOk(h: Heap, owner: nat, kids: seq<Ast>)
    decreases kids
  {
    kids == [] || (AstOk(h, owner, kids[0]) && KidsOk(h, owner, kids[1..]))
  }

  ghost predicate ObjOk(h: Heap, p: nat) requires p in h {
    match h[p]
    case StrObj(raw) => IsString(raw)
    case ArrObj(t) => TableOk(h, t)
    case RefObj(root) => !root.Absent? && AstOk(h, p, root)
  }

  ghost predicate HeapOk(h: Heap) {
    0 !in h && forall p :: p in h ==> ObjOk(h, p)
  }

  // ---------------------------------------------------------------- acyclic expressions

  /** The shape of a tree, wherever its literals point. */
  ghost predicate TreeShapeOk(h: Heap, a: Ast)
    decreases a
  {
    match a
    case Absent => true
    case ValNode(_, v) => ValOk(h, v)
    case Inner(kind, kids) =>
      (kind.EnumInit? ==> |kids| == 3) && |kids| < UINT32 && forall i :: 0 <= i < |kids| ==> TreeShapeOk(h, kids[i])
  }

  ghost predicate ShapeOk(h: Heap, p: nat)
    requires p in h
  {
    match h[p]
    case StrObj(raw) => IsString(raw)
    case ArrObj(t) => TableOk(h, t)
    case RefObj(root) => !root.Absent? && TreeShapeOk(h, root)
  }

  lemma {:induction false} TreeOkExactly(h: Heap, r: map<nat, nat>, owner: nat, a: Ast)
    requires forall p :: p in h ==> p in r && r[p] == Rank(h, p)
    requires owner in h
    ensures AstOk(h, owner, a) <==> TreeShapeOk(h, a) && TreeRanked(r, owner, a)
    decreases a
  {
    hide Rank;
    if a.Inner? {
      forall i | 0 <= i < |a.kids|
        ensures AstOk(h, owner, a.kids[i]) <==> TreeShapeOk(h, a.kids[i]) && TreeRanked(r, owner, a.kids[i])
      {
        TreeOkExactly(h, r, owner, a.kids[i]);
      }
      KidsOkExactly(h, owner, a.kids);
    }
  }

  lemma {:induction false} KidsOkExactly(h: Heap, owner: nat, kids: seq<Ast>)
    ensures KidsOk(h, owner, kids) <==> forall i :: 0 <= i < |kids| ==> AstOk(h, owner, kids[i])
  {
    hide Rank;
    if kids != [] {
      KidsOkExactly(h, owner, kids[1..]);
      assert forall i :: 0 < i < |kids| ==> kids[i] == kids[1..][i - 1];
    }
  }

  /** Addresses play no part: any numbering that falls along the nesting will do. */
  lemma HeapOkExactly(h: Heap)
    ensures HeapOk(h) <==> 0 !in h && (forall p :: p in h ==> ShapeOk(h, p)) && exists r: map<nat, nat> :: Ranks(h, r)
  {
    var s := map p | p in h :: Rank(h, p);
    forall p | p in h && h[p].RefObj?
      ensures AstOk(h, p, h[p].root) <==> TreeShapeOk(h, h[p].root) && TreeRanked(s, p, h[p].root)
    {
      TreeOkExactly(h, s, p, h[p].root);
    }
    if HeapOk(h) {
      forall p | p in h ensures ShapeOk(h, p) && (h[p].RefObj? ==> TreeRanked(s, p, h[p].root)) { assert ObjOk(h, p); }
      assert Ranks(h, s);
    }
    if (forall p :: p in h ==> ShapeOk(h, p)) && exists r: map<nat, nat> :: Ranks(h, r) {
      forall p | p in h ensures ObjOk(h, p) {
        assert ShapeOk(h, p);
        if h[p].RefObj? { SameRanking(h, s, p, h[p].root); }
      }
    }
  }

  lemma {:induction false} SameRanking(h: Heap, s: map<nat, nat>, owner: nat, a: Ast)
    requires forall p :: p in h ==> p in s && s[p] == Rank(h, p)
    requires owner in h && TreeShapeOk(h, a) && TreeRanked(Ranking(h), owner, a)
    ensures TreeRanked(s, owner, a)
    decreases a
  {
    if a.Inner? {
      forall i | 0 <= i < |a.kids| ensures TreeRanked(s, owner, a.kids[i]) { SameRanking(h, s, owner, a.kids[i]); }
    }
  }

  // ---------------------------------------------------------------- sizes

  function ElementBytes(packed: bool, n: nat): nat {
    if packed then SIZEOF_ZVAL * n else SIZEOF_BUCKET * n
  }

  /** The hash part a persisted table keeps: packed tables have the minimal one, sparse
      tables a compacted one. */
  function KeptHashSize(t: Table): nat {
    if t.packed then PACKED_HASH_SIZE
    else if HashCompact.Sparse(t.hashSize, |t.buckets|) then HashCompact.CompactSize(t.hashSize, |t.buckets|)
    else t.hashSize
  }

  function DataBytes(t: Table): (r: nat)
    ensures r % 8 == 0
  {
    if t.buckets == [] then 0
    else Aligned(4 * KeptHashSize(t) + ElementBytes(t.packed, |t.buckets|))
  }

  /**
   bytes is the length of the hash part a persisted table needs: two words of 4 bytes for a packed table; the
   old hash part unless more than 8 buckets use less than a quarter of it; then one of a power of two above
   twice the used buckets, a quarter of which does not exceed them.
   */
  ghost predicate KeepsHash(t: Table, bytes: nat) {
    if t.packed then bytes == 8
    else if |t.buckets| <= 8 || 4 * |t.buckets| >= t.hashSize then bytes == 4 * t.hashSize
    else exists size: nat ::
           bytes == 4 * size && HashCompact.PowerOfTwo(size)
           && 2 * |t.buckets| < size <= t.hashSize && size <= 4 * |t.buckets| + 3
  }

  lemma HashKept(h: Heap, t: Table)
    requires TableOk(h, t) && t.buckets != []
    ensures KeepsHash(t, 4 * KeptHashSize(t)) && KeptHashSize(t) % 2 == 0
    ensures DataBytes(t) == 4 * KeptHashSize(t) + if t.packed then 16 * |t.buckets| else 32 * |t.buckets|
  {
    HashPart(h, t);
    hide TableOk, KeptHashSize, KeepsHash;
    var half := KeptHashSize(t) / 2;
    var words := if t.packed then half + 2 * |t.buckets| else half + 4 * |t.buckets|;
    assert 4 * KeptHashSize(t) + ElementBytes(t.packed, |t.buckets|) == 8 * words;
    AlignedExact(words);
  }

  lemma HashPart(h: Heap, t: Table)
    requires TableOk(h, t) && t.buckets != []
    ensures KeepsHash(t, 4 * KeptHashSize(t)) && KeptHashSize(t) % 2 == 0
  {
    hide HashCompact.PowerOfTwo, HashCompact.CompactSize;
    if !t.packed {
      QuarterIsExact(t.hashSize);
      if HashCompact.Sparse(t.hashSize, |t.buckets|) {
        HashCompact.CompactSizeBounds(t.hashSize, |t.buckets|);
        QuarterIsExact(KeptHashSize(t));
      }
    }
  }

  lemma AlignedExact(words: nat)
    ensures Aligned(8 * words) == 8 * words
  {
  }

  lemma QuarterIsExact(size: nat)
    requires HashCompact.PowerOfTwo(size) && size >= 8
    ensures size % 4 == 0
  {
    HashCompact.HalfPower(size);
    HashCompact.HalfPower(size / 2);
  }

  /** zend_persist_ast_calc adds the size of the node as Zend allocates it. */
  function CalcNodeBytes(a: Ast): (r: nat)
    ensures r % 8 == 0 && (!a.Absent? ==> r > 0)
  {
    match a
    case Absent => 0
    case ValNode(_, _) => SIZEOF_AST_ZVAL
    case Inner(ListKind, kids) => 16 + SIZEOF_POINTER * |kids|
    case Inner(EnumInit, kids) => 32
    case Inner(OtherKind, kids) => 8 + SIZEOF_POINTER * |kids|
  }

  /** zend_persist_ast computes children - 1 in 32 bits before scaling it. */
  function PersistNodeBytes(a: Ast): (r: nat)
    ensures r % 8 == 0 && (!a.Absent? ==> r > 0)
  {
    match a
    case Absent => 0
    case ValNode(_, _) => SIZEOF_AST_ZVAL
    case Inner(ListKind, kids) => 24 + SIZEOF_POINTER * ((|kids| + UINT32 - 1) % UINT32)
    case Inner(EnumInit, kids) => 32
    case Inner(OtherKind, kids) => 16 + SIZEOF_POINTER * ((|kids| + UINT32 - 1) % UINT32)
  }

  /** Bytes of a whole tree, by the node sizes of either pass. */
  function TreeBytes(pass: Pass, a: Ast): (r: nat)
    ensures !a.Absent? ==> r > 0
    decreases a
  {
    (if pass.Measure? then CalcNodeBytes(a) else PersistNodeBytes(a)) +
    if a.Inner? then KidsBytes(pass, a.kids) else 0
  }

  function KidsBytes(pass: Pass, kids: seq<Ast>): nat
    decreases kids
  {
    if kids == [] then 0
    else TreeBytes(pass, kids[0]) + KidsBytes(pass, kids[1..])
  }

  /** What one object adds to the measured size or takes from the arena. */
  function ObjBytes(pass: Pass, o: Obj): (r: nat)
    ensures (o.StrObj? ==> o.raw != []) && (o.RefObj? ==> !o.root.Absent?) ==> r > 0
  {
    match o
    case StrObj(raw) => Aligned(|raw|)
    case ArrObj(t) => SIZEOF_ARRAY + DataBytes(t)
    case RefObj(root) => SIZEOF_AST_REF + TreeBytes(pass, root)
  }

  function LogBytes(pass: Pass, h: Heap, log: seq<nat>): nat
    requires forall p :: p in log ==> p in h
  {
    if log == [] then 0
    else LogBytes(pass, h, log[..|log| - 1]) + ObjBytes(pass, h[log[|log| - 1]])
  }

  // ---------------------------------------------------------------- the walk

  /** What is still to be visited: a value, or a node of the expression owner. */
  datatype Item = Val(v: Zval) | Node(owner: nat, a: Ast)

  ghost predicate ItemOk(h: Heap, it: Item) {
    match it
    case Val(v) => ValOk(h, v)
    case Node(owner, a) => !a.Absent? && AstOk(h, owner, a)
  }

  ghost predicate WorkOk(h: Heap, work: seq<Item>) {
    forall i :: 0 <= i < |work| ==> ItemOk(h, work[i])
  }

  function BucketItems(b: Bucket): seq<Item> {
    if b.val.Undef? then [] else (if b.key != 0 then [Val(StrV(b.key))] else []) + [Val(b.val)]
  }

  function TableItems(bs: seq<Bucket>): seq<Item> {
    if bs == [] then [] else BucketItems(bs[0]) + TableItems(bs[1..])
  }

  function KidItems(owner: nat, kids: seq<Ast>): seq<Item> {
    if kids == [] then []
    else (if kids[0].Absent? then [] else [Node(owner, kids[0])]) + KidItems(owner, kids[1..])
  }

  /** The kinds zend_persist_zval copies; any other expression becomes NULL. */
  predicate Kept(a: Ast) {
    a.ValNode? || (a.Inner? && a.kind.EnumInit?)
  }

  ghost function TreeWeight(h: Heap, owner: nat, a: Ast): nat
    decreases Rank(h, owner), a, 1
  {
    match a
    case Absent => 0
    case ValNode(_, v) =>
      if v.AstV? && Rank(h, v.p) < Rank(h, owner) && v.p in h
        && h[v.p].RefObj? then 2 + TreeWeight(h, v.p, h[v.p].root) else 2
    case Inner(_, kids) => 1 + KidsWeight(h, owner, kids)
  }

  ghost function KidsWeight(h: Heap, owner: nat, kids: seq<Ast>): nat
    decreases Rank(h, owner), kids, 0
  {
    if kids == [] then 0
    else TreeWeight(h, owner, kids[0]) + KidsWeight(h, owner, kids[1..])
  }

  ghost function ValWeight(h: Heap, v: Zval): nat {
    if v.AstV? && v.p in h && h[v.p].RefObj? then 1 + TreeWeight(h, v.p, h[v.p].root) else 1
  }

  ghost function ItemWeight(h: Heap, it: Item): nat {
    match it
    case Val(v) => ValWeight(h, v)
    case Node(owner, a) => TreeWeight(h, owner, a)
  }

  ghost function WorkWeight(h: Heap, work: seq<Item>): nat {
    if work == [] then 0 else ItemWeight(h, work[0]) + WorkWeight(h, work[1..])
  }

  ghost function Unlogged(h: Heap, log: seq<nat>): set<nat> {
    set p | p in h && !h[p].RefObj? && p !in log
  }

  lemma {:induction false} WorkWeightAppend(h: Heap, a: seq<Item>, b: seq<Item>)
    ensures WorkWeight(h, a + b) == WorkWeight(h, a) + WorkWeight(h, b)
  {
    if a == [] { assert a + b == b; } else {
      WorkWeightAppend(h, a[1..], b);
      assert (a + b)[1..] == a[1..] + b;
    }
  }

  lemma {:induction false} KidItemsWeight(h: Heap, owner: nat, kids: seq<Ast>)
    ensures WorkWeight(h, KidItems(owner, kids)) == KidsWeight(h, owner, kids)
    ensures KidsOk(h, owner, kids) ==> WorkOk(h, KidItems(owner, kids))
  {
    if kids != [] {
      KidItemsWeight(h, owner, kids[1..]);
      WorkWeightAppend(h, if kids[0].Absent? then [] else [Node(owner, kids[0])], KidItems(owner, kids[1..]));
    }
  }

  lemma {:induction false} TableItemsOk(h: Heap, t: Table, bs: seq<Bucket>)
    requires forall i :: 0 <= i < |bs| ==> BucketOk(h, t, bs[i])
    ensures WorkOk(h, TableItems(bs))
  {
    if bs != [] { TableItemsOk(h, t, bs[1..]); }
  }

  /** What visiting one item does: the object it logs, if any, and the items it uncovers.
      Only the copying pass skips expressions it has met and drops those of a complex kind. */
  function Step(h: Heap, pass: Pass, log: seq<nat>, it: Item): (r: (seq<nat>, seq<Item>))
    requires ItemOk(h, it)
  {
    match it
    case Val(StrV(p)) => if p in log then (log, []) else (log + [p], [])
    case Val(ArrV(p)) => if p in log then (log, []) else (log + [p], TableItems(h[p].t.buckets))
    case Val(AstV(p)) =>
      if pass.Copy? && (p in log || !Kept(h[p].root)) then (log, []) else (log + [p], [Node(p, h[p].root)])
    case Val(_) => (log, [])
    case Node(owner, ValNode(_, v)) => (log, [Val(v)])
    case Node(owner, Inner(_, kids)) => (log, KidItems(owner, kids))
  }

  lemma StepOk(h: Heap, pass: Pass, log: seq<nat>, it: Item)
    requires HeapOk(h) && ItemOk(h, it)
    ensures var r := Step(h, pass, log, it);
            && WorkOk(h, r.1)
            && (Unlogged(h, r.0) < Unlogged(h, log)
                || (Unlogged(h, r.0) == Unlogged(h, log) && WorkWeight(h, r.1) < ItemWeight(h, it)))
            && log <= r.0 && (forall p :: p in r.0 && p !in log ==> p in h)
  {
    match it
    case Val(StrV(p)) => if p !in log { assert p in Unlogged(h, log) && p !in Unlogged(h, log + [p]); }
    case Val(ArrV(p)) =>
      if p !in log {
        assert ObjOk(h, p);
        assert p in Unlogged(h, log) && p !in Unlogged(h, log + [p]);
        TableItemsOk(h, h[p].t, h[p].t.buckets);
      }
    case Val(AstV(p)) =>
      assert ObjOk(h, p);
      assert Unlogged(h, log + [p]) == Unlogged(h, log);
    case Val(_) =>
    case Node(owner, ValNode(_, v)) =>
    case Node(owner, Inner(_, kids)) => KidItemsWeight(h, owner, kids);
  }

  /** The whole depth-first walk: the objects in the order they are counted or copied. */
  function Walk(h: Heap, pass: Pass, log: seq<nat>, work: seq<Item>): (r: seq<nat>)
    requires HeapOk(h) && WorkOk(h, work)
    ensures log <= r
    ensures (forall p :: p in log ==> p in h) ==> forall p :: p in r ==> p in h
    decreases Unlogged(h, log), WorkWeight(h, work)
  {
    if work == [] then log
    else
      var s := Step(h, pass, log, work[0]);
      assert ItemOk(h, work[0]);
      StepOk(h, pass, log, work[0]);
      WorkWeightAppend(h, s.1, work[1..]);
      Walk(h, pass, s.0, s.1 + work[1..])
  }

  lemma {:induction false} WalkAppend(h: Heap, pass: Pass, log: seq<nat>, a: seq<Item>, b: seq<Item>)
    requires HeapOk(h) && WorkOk(h, a) && WorkOk(h, b)
    ensures WorkOk(h, a + b) && Walk(h, pass, log, a + b) == Walk(h, pass, Walk(h, pass, log, a), b)
    decreases Unlogged(h, log), WorkWeight(h, a)
  {
    if a == [] {
      assert a + b == b;
      return;
    }
    var ab := a + b;
    var s := Step(h, pass, log, a[0]);
    var next := s.1 + a[1..];
    WalkUnfold(h, pass, log, ab);
    hide Step;
    assert s.1 + ab[1..] == next + b;
    assert Unlogged(h, s.0) < Unlogged(h, log)
           || (Unlogged(h, s.0) == Unlogged(h, log) && WorkWeight(h, next) < WorkWeight(h, a)) by {
      StepOk(h, pass, log, a[0]);
      WorkWeightAppend(h, s.1, a[1..]);
    }
    WalkUnfold(h, pass, log, a);
    WalkAppend(h, pass, s.0, next, b);
  }

  lemma WalkUnfold(h: Heap, pass: Pass, log: seq<nat>, work: seq<Item>)
    requires HeapOk(h) && WorkOk(h, work) && work != []
    ensures var s := Step(h, pass, log, work[0]);
            WorkOk(h, s.1 + work[1..]) && Walk(h, pass, log, work) == Walk(h, pass, s.0, s.1 + work[1..])
  {
    StepOk(h, pass, log, work[0]);
  }

  /** Unfolding the walk of a single item. */
  lemma WalkOne(h: Heap, pass: Pass, log: seq<nat>, it: Item)
    requires HeapOk(h) && ItemOk(h, it)
    ensures var s := Step(h, pass, log, it);
            WorkOk(h, s.1) && Walk(h, pass, log, [it]) == Walk(h, pass, s.0, s.1)
  {
    var s := Step(h, pass, log, it);
    StepOk(h, pass, log, it);
    assert s.1 + [it][1..] == s.1;
  }

  /** The walk never forgets, so fewer objects stay unlogged. */
  lemma UnloggedShrinks(h: Heap, log: seq<nat>, log': seq<nat>)
    requires log <= log'
    ensures Unlogged(h, log') <= Unlogged(h, log)
  {
    forall p | p in log ensures p in log' {
      var i :| 0 <= i < |log| && log[i] == p;
      assert log'[i] == p;
    }
  }

  lemma {:induction false} TableItemsSplit(bs: seq<Bucket>, n: nat)
    requires n < |bs|
    ensures TableItems(bs[..n + 1]) == TableItems(bs[..n]) + BucketItems(bs[n])
  {
    if n == 0 {
      assert bs[..1][1..] == [];
    } else {
      TableItemsSplit(bs[1..], n - 1);
      assert bs[..n + 1][1..] == bs[1..][..n] && bs[..n][1..] == bs[1..][..n - 1];
    }
  }

  lemma {:induction false} KidItemsSplit(owner: nat, kids: seq<Ast>, n: nat)
    requires n < |kids|
    ensures KidItems(owner, kids[..n + 1]) ==
            KidItems(owner, kids[..n]) + if kids[n].Absent? then [] else [Node(owner, kids[n])]
  {
    if n == 0 {
      assert kids[..1][1..] == [];
    } else {
      KidItemsSplit(owner, kids[1..], n - 1);
      assert kids[..n + 1][1..] == kids[1..][..n] && kids[..n][1..] == kids[1..][..n - 1];
    }
  }

  lemma {:induction false} KidAt(h: Heap, owner: nat, kids: seq<Ast>, n: nat)
    requires n < |kids| && KidsOk(h, owner, kids)
    ensures AstOk(h, owner, kids[n]) && TreeWeight(h, owner, kids[n]) <= KidsWeight(h, owner, kids)
  {
    if n > 0 { KidAt(h, owner, kids[1..], n - 1); }
  }

  lemma {:induction false} KidsBytesSplit(pass: Pass, kids: seq<Ast>, n: nat)
    requires n < |kids|
    ensures KidsBytes(pass, kids[..n + 1]) == KidsBytes(pass, kids[..n]) + TreeBytes(pass, kids[n])
  {
    if n == 0 {
      assert kids[..1][1..] == [];
    } else {
      KidsBytesSplit(pass, kids[1..], n - 1);
      assert kids[..n + 1][1..] == kids[1..][..n] && kids[..n][1..] == kids[1..][..n - 1];
    }
  }
}
