/**
 Theorems about the two walks: which objects each one meets, that neither result depends on
 the order of the walk, and how the measured size compares with what copying takes.
 */
module SizeAccounting {
  import opened MachineWords
  import opened Sequences
  import opened ZendGraph

  // ---------------------------------------------------------------- reachability

  /** The objects a value leads to in one step; copying does not follow a complex expression. */
  ghost function ValPtrs(h: Heap, pass: Pass, v: Zval): set<nat> {
    match v
    case StrV(p) => {p}
    case ArrV(p) => {p}
    case AstV(p) => if pass.Copy? && p in h && h[p].RefObj? && !Kept(h[p].root) then {} else {p}
    case _ => {}
  }

  ghost function AstPtrs(h: Heap, pass: Pass, a: Ast): set<nat>
    decreases a
  {
    match a
    case Absent => {}
    case ValNode(_, v) => ValPtrs(h, pass, v)
    case Inner(_, kids) => KidsPtrs(h, pass, kids)
  }

  ghost function KidsPtrs(h: Heap, pass: Pass, kids: seq<Ast>): set<nat>
    decreases kids
  {
    if kids == [] then {} else AstPtrs(h, pass, kids[0]) + KidsPtrs(h, pass, kids[1..])
  }

  ghost function ItemPtrs(h: Heap, pass: Pass, it: Item): set<nat> {
    match it
    case Val(v) => ValPtrs(h, pass, v)
    case Node(_, a) => AstPtrs(h, pass, a)
  }

  ghost function WorkPtrs(h: Heap, pass: Pass, work: seq<Item>): set<nat> {
    if work == [] then {} else ItemPtrs(h, pass, work[0]) + WorkPtrs(h, pass, work[1..])
  }

  ghost function ObjPtrs(h: Heap, pass: Pass, o: Obj): set<nat> {
    match o
    case StrObj(_) => {}
    case ArrObj(t) => WorkPtrs(h, pass, TableItems(t.buckets))
    case RefObj(root) => AstPtrs(h, pass, root)
  }

  ghost function Elems(log: seq<nat>): set<nat> {
    set p | p in log
  }

  ghost predicate Closed(h: Heap, pass: Pass, s: set<nat>) {
    forall p :: p in s ==> p in h && ObjPtrs(h, pass, h[p]) <= s
  }

  lemma {:induction false} WorkPtrsAppend(h: Heap, pass: Pass, a: seq<Item>, b: seq<Item>)
    ensures WorkPtrs(h, pass, a + b) == WorkPtrs(h, pass, a) + WorkPtrs(h, pass, b)
  {
    if a == [] { assert a + b == b; } else {
      WorkPtrsAppend(h, pass, a[1..], b);
      assert (a + b)[1..] == a[1..] + b;
    }
  }

  lemma {:induction false} KidItemsPtrs(h: Heap, pass: Pass, owner: nat, kids: seq<Ast>)
    ensures WorkPtrs(h, pass, KidItems(owner, kids)) == KidsPtrs(h, pass, kids)
  {
    if kids != [] {
      KidItemsPtrs(h, pass, owner, kids[1..]);
      WorkPtrsAppend(h, pass, if kids[0].Absent? then [] else [Node(owner, kids[0])], KidItems(owner, kids[1..]));
    }
  }

  /** A step logs the object it stands on, and uncovers exactly where that leads. */
  lemma StepPtrs(h: Heap, pass: Pass, log: seq<nat>, it: Item)
    requires HeapOk(h) && ItemOk(h, it)
    ensures var (log', more) := Step(h, pass, log, it);
            || (log' == log && (it.Node? || ItemPtrs(h, pass, it) <= Elems(log)) &&
                WorkPtrs(h, pass, more) == if it.Node? then ItemPtrs(h, pass, it) else {})
            || (|log'| == |log| + 1 && log' == log + [log'[|log|]] &&
                (var p := log'[|log|];
                 ItemPtrs(h, pass, it) == {p} && p in h && WorkPtrs(h, pass, more) == ObjPtrs(h, pass, h[p])))
  {
    match it
    case Val(StrV(p)) => assert ItemPtrs(h, pass, it) == {p};
    case Val(ArrV(p)) => assert ItemPtrs(h, pass, it) == {p};
    case Val(AstV(p)) =>
      var node := [Node(p, h[p].root)];
      assert WorkPtrs(h, pass, node) == AstPtrs(h, pass, h[p].root) + WorkPtrs(h, pass, node[1..]);
      if pass.Measure? || (p !in log && Kept(h[p].root)) { assert ItemPtrs(h, pass, it) == {p}; }
    case Val(_) =>
    case Node(owner, ValNode(_, v)) =>
      assert WorkPtrs(h, pass, [Val(v)]) == ValPtrs(h, pass, v) + WorkPtrs(h, pass, [Val(v)][1..]);
    case Node(owner, Inner(_, kids)) => KidItemsPtrs(h, pass, owner, kids);
  }

  lemma {:induction false} WalkCloses(h: Heap, pass: Pass, log: seq<nat>, work: seq<Item>)
    requires HeapOk(h) && WorkOk(h, work)
    requires forall p :: p in log ==> p in h && ObjPtrs(h, pass, h[p]) <= Elems(log) + WorkPtrs(h, pass, work)
    ensures var end := Elems(Walk(h, pass, log, work));
            Closed(h, pass, end) && Elems(log) + WorkPtrs(h, pass, work) <= end
    decreases Unlogged(h, log), WorkWeight(h, work)
  {
    if work == [] { return; }
    var (log', more) := Step(h, pass, log, work[0]);
    StepOk(h, pass, log, work[0]);
    WorkWeightAppend(h, more, work[1..]);
    StepPtrs(h, pass, log, work[0]);
    WorkPtrsAppend(h, pass, more, work[1..]);
    WalkCloses(h, pass, log', more + work[1..]);
  }

  lemma {:induction false} WalkStaysInside(h: Heap, pass: Pass, log: seq<nat>, work: seq<Item>, s: set<nat>)
    requires HeapOk(h) && WorkOk(h, work)
    requires Closed(h, pass, s) && Elems(log) + WorkPtrs(h, pass, work) <= s
    ensures Elems(Walk(h, pass, log, work)) <= s
    decreases Unlogged(h, log), WorkWeight(h, work)
  {
    if work == [] { return; }
    var (log', more) := Step(h, pass, log, work[0]);
    StepOk(h, pass, log, work[0]);
    WorkWeightAppend(h, more, work[1..]);
    StepPtrs(h, pass, log, work[0]);
    WorkPtrsAppend(h, pass, more, work[1..]);
    WalkStaysInside(h, pass, log', more + work[1..], s);
  }

  /** Either pass meets exactly the least set of objects that holds the roots and is closed
      under its pointers, whatever the sharing and the cycles. */
  lemma WalkIsReachability(h: Heap, pass: Pass, work: seq<Item>)
    requires HeapOk(h) && WorkOk(h, work)
    ensures var end := Elems(Walk(h, pass, [], work));
            && Closed(h, pass, end) && WorkPtrs(h, pass, work) <= end
            && forall s :: Closed(h, pass, s) && WorkPtrs(h, pass, work) <= s ==> end <= s
  {
    WalkCloses(h, pass, [], work);
    forall s | Closed(h, pass, s) && WorkPtrs(h, pass, work) <= s
      ensures Elems(Walk(h, pass, [], work)) <= s
    {
      WalkStaysInside(h, pass, [], work, s);
    }
  }

  lemma {:induction false} AstPtrsGrow(h: Heap, a: Ast)
    ensures AstPtrs(h, Copy, a) <= AstPtrs(h, Measure, a)
    decreases a
  {
    if a.Inner? { KidsPtrsGrow(h, a.kids); }
  }

  lemma {:induction false} KidsPtrsGrow(h: Heap, kids: seq<Ast>)
    ensures KidsPtrs(h, Copy, kids) <= KidsPtrs(h, Measure, kids)
    decreases kids
  {
    if kids != [] {
      AstPtrsGrow(h, kids[0]);
      KidsPtrsGrow(h, kids[1..]);
    }
  }

  lemma {:induction false} WorkPtrsGrow(h: Heap, work: seq<Item>)
    ensures WorkPtrs(h, Copy, work) <= WorkPtrs(h, Measure, work)
  {
    if work != [] {
      if work[0].Node? { AstPtrsGrow(h, work[0].a); }
      WorkPtrsGrow(h, work[1..]);
    }
  }

  /** Everything that is copied was measured. */
  lemma CopiedWasMeasured(h: Heap, work: seq<Item>)
    requires HeapOk(h) && WorkOk(h, work)
    ensures Elems(Walk(h, Copy, [], work)) <= Elems(Walk(h, Measure, [], work))
  {
    var measured := Elems(Walk(h, Measure, [], work));
    WalkIsReachability(h, Measure, work);
    forall p | p in measured ensures p in h && ObjPtrs(h, Copy, h[p]) <= measured {
      match h[p]
      case StrObj(_) =>
      case ArrObj(t) => WorkPtrsGrow(h, TableItems(t.buckets));
      case RefObj(root) => AstPtrsGrow(h, root);
    }
    WorkPtrsGrow(h, work);
    WalkStaysInside(h, Copy, [], work, measured);
  }

  // ---------------------------------------------------------------- sums

  lemma {:induction false} CopyNeverRepeats(h: Heap, log: seq<nat>, work: seq<Item>)
    requires HeapOk(h) && WorkOk(h, work) && NoRepeat(log)
    ensures NoRepeat(Walk(h, Copy, log, work))
    decreases Unlogged(h, log), WorkWeight(h, work)
  {
    if work != [] {
      var (log', more) := Step(h, Copy, log, work[0]);
      StepOk(h, Copy, log, work[0]);
      WorkWeightAppend(h, more, work[1..]);
      CopyNeverRepeats(h, log', more + work[1..]);
    }
  }

  lemma {:induction false} LogBytesWithout(pass: Pass, h: Heap, log: seq<nat>, k: nat)
    requires k < |log| && forall p :: p in log ==> p in h
    ensures LogBytes(pass, h, log) == LogBytes(pass, h, log[..k] + log[k + 1..]) + ObjBytes(pass, h[log[k]])
  {
    hide ObjBytes;
    var last := |log| - 1;
    if k == last {
      assert log[..k] + log[k + 1..] == log[..last];
    } else {
      hide LogBytes;
      var before, x := log[..last], log[last];
      LogBytesWithout(pass, h, before, k);
      assert log == before + [x];
      var rest := before[..k] + before[k + 1..];
      assert log[..k] + log[k + 1..] == rest + [x];
      assert forall p :: p in rest ==> p in log;
      LogBytesAnother(pass, h, before, x);
      LogBytesAnother(pass, h, rest, x);
    }
  }

  lemma LogBytesAnother(pass: Pass, h: Heap, log: seq<nat>, x: nat)
    requires x in h && forall p :: p in log ==> p in h
    ensures LogBytes(pass, h, log + [x]) == LogBytes(pass, h, log) + ObjBytes(pass, h[x])
  {
    assert (log + [x])[..|log|] == log;
  }

  /** A list without repetitions weighs no more than a list that contains it, and as much
      only if the second one is a permutation of the first. */
  lemma {:induction false} SubsetWeighsLess(pass: Pass, h: Heap, a: seq<nat>, b: seq<nat>)
    requires HeapOk(h) && NoRepeat(a) && Elems(a) <= Elems(b) && forall p :: p in b ==> p in h
    ensures forall p :: p in a ==> p in h
    ensures LogBytes(pass, h, a) <= LogBytes(pass, h, b)
    ensures LogBytes(pass, h, a) == LogBytes(pass, h, b) <==> NoRepeat(b) && Elems(b) <= Elems(a)
  {
    forall p | p in a ensures p in h { assert p in Elems(a); }
    if a == [] {
      if b != [] {
        assert ObjOk(h, b[|b| - 1]);
        assert b[0] in Elems(b);
      }
      return;
    }
    var x := a[|a| - 1];
    var a' := a[..|a| - 1];
    assert x in Elems(a);
    var k :| 0 <= k < |b| && b[k] == x;
    var b' := b[..k] + b[k + 1..];
    LogBytesWithout(pass, h, b, k);
    forall p ensures p in b' ==> p in b {}
    forall p ensures p in b && p != x ==> p in b' {
      if p in b && p != x {
        var i :| 0 <= i < |b| && b[i] == p;
        assert b'[if i < k then i else i - 1] == p;
      }
    }
    assert Elems(a') <= Elems(b') by {
      forall p | p in a' ensures p in b' { assert p in Elems(a); }
    }
    SubsetWeighsLess(pass, h, a', b');
    assert NoRepeat(b) && Elems(b) <= Elems(a) <==> NoRepeat(b') && Elems(b') <= Elems(a') by {
      PermutationWithout(a, b, k);
    }
  }

  lemma PermutationWithout(a: seq<nat>, b: seq<nat>, k: nat)
    requires NoRepeat(a) && a != [] && k < |b| && b[k] == a[|a| - 1] && Elems(a) <= Elems(b)
    ensures var a' := a[..|a| - 1]; var b' := b[..k] + b[k + 1..];
            NoRepeat(b) && Elems(b) <= Elems(a) <==> NoRepeat(b') && Elems(b') <= Elems(a')
  {
    var x, a', b' := b[k], a[..|a| - 1], b[..k] + b[k + 1..];
    if NoRepeat(b) && Elems(b) <= Elems(a) {
      forall p | p in b' ensures p in a' {
        assert p != x && p in Elems(b);
        assert p in a;
      }
    }
    if NoRepeat(b') && Elems(b') <= Elems(a') {
      assert x !in a';
      assert x in b' ==> x in Elems(b');
      forall i, j | 0 <= i < j < |b| ensures b[i] != b[j] {
        if i != k { assert b[i] == b'[if i < k then i else i - 1]; }
        if j != k { assert b[j] == b'[if j < k then j else j - 1]; }
      }
      forall p | p in b ensures p in a {
        if p != x {
          var i :| 0 <= i < |b| && b[i] == p;
          assert b'[if i < k then i else i - 1] == p;
          assert p in Elems(b');
        }
      }
    }
  }

  // ---------------------------------------------------------------- childless nodes

  /** List and generic nodes without children, for which children - 1 wraps in 32 bits. */
  function Childless(a: Ast): nat
    decreases a
  {
    if !a.Inner? then 0
    else (if a.kids == [] && !a.kind.EnumInit? then 1 else 0) + ChildlessKids(a.kids)
  }

  function ChildlessKids(kids: seq<Ast>): nat
    decreases kids
  {
    if kids == [] then 0 else Childless(kids[0]) + ChildlessKids(kids[1..])
  }

  const WRAPPED: nat := 0x8_0000_0000   // 2^32 pointers

  lemma {:induction false} TreeExcess(h: Heap, owner: nat, a: Ast)
    requires AstOk(h, owner, a)
    ensures TreeBytes(Copy, a) == TreeBytes(Measure, a) + WRAPPED * Childless(a)
    decreases a
  {
    if a.Inner? {
      KidsExcess(h, owner, a.kids);
      if |a.kids| > 0 { assert (|a.kids| + UINT32 - 1) % UINT32 == |a.kids| - 1; }
    }
  }

  lemma {:induction false} KidsExcess(h: Heap, owner: nat, kids: seq<Ast>)
    requires KidsOk(h, owner, kids)
    ensures KidsBytes(Copy, kids) == KidsBytes(Measure, kids) + WRAPPED * ChildlessKids(kids)
    decreases kids
  {
    if kids != [] {
      TreeExcess(h, owner, kids[0]);
      KidsExcess(h, owner, kids[1..]);
    }
  }

  function ChildlessIn(h: Heap, log: seq<nat>): nat
    requires forall p :: p in log ==> p in h
  {
    if log == [] then 0
    else ChildlessIn(h, log[..|log| - 1]) +
         (if h[log[|log| - 1]].RefObj? then Childless(h[log[|log| - 1]].root) else 0)
  }

  lemma {:induction false} LogExcess(h: Heap, log: seq<nat>)
    requires HeapOk(h) && forall p :: p in log ==> p in h
    ensures LogBytes(Copy, h, log) == LogBytes(Measure, h, log) + WRAPPED * ChildlessIn(h, log)
  {
    if log != [] {
      var p := log[|log| - 1];
      assert ObjOk(h, p);
      LogExcess(h, log[..|log| - 1]);
      if h[p].RefObj? { TreeExcess(h, p, h[p].root); }
    }
  }

  // ---------------------------------------------------------------- the size theorems

  /** What the measuring pass counts and the copying pass takes for the values in roots. */
  function Measured(h: Heap, roots: seq<Item>): nat
    requires HeapOk(h) && WorkOk(h, roots)
  {
    LogBytes(Measure, h, Walk(h, Measure, [], roots))
  }

  ghost function RootItems(roots: seq<Zval>): seq<Item> {
    seq(|roots|, i requires 0 <= i < |roots| => Val(roots[i]))
  }

  function Taken(h: Heap, roots: seq<Item>): nat
    requires HeapOk(h) && WorkOk(h, roots)
  {
    LogBytes(Copy, h, Walk(h, Copy, [], roots))
  }

  /** No expression that gets copied holds a childless list or generic node. */
  ghost predicate NoChildlessCopied(h: Heap, roots: seq<Item>)
    requires HeapOk(h) && WorkOk(h, roots)
  {
    ChildlessIn(h, Walk(h, Copy, [], roots)) == 0
  }

  /** Every expression met is of a kind that is copied, and is met once. */
  ghost predicate ExpressionsKeptUnshared(h: Heap, roots: seq<Item>)
    requires HeapOk(h) && WorkOk(h, roots)
  {
    var log := Walk(h, Measure, [], roots);
    NoRepeat(log) && forall p :: p in log && h[p].RefObj? ==> Kept(h[p].root)
  }

  /** Without childless nodes the arena is never outgrown, and it is filled exactly when
      every expression is of a kept kind and unshared. */
  lemma SizeBound(h: Heap, roots: seq<Item>)
    requires HeapOk(h) && WorkOk(h, roots)
    requires NoChildlessCopied(h, roots)
    ensures Taken(h, roots) <= Measured(h, roots)
    ensures Taken(h, roots) == Measured(h, roots) <==> ExpressionsKeptUnshared(h, roots)
  {
    var measured, copied := Walk(h, Measure, [], roots), Walk(h, Copy, [], roots);
    CopiedWasMeasured(h, roots);
    CopyNeverRepeats(h, [], roots);
    SubsetWeighsLess(Measure, h, copied, measured);
    LogExcess(h, copied);
    if Elems(measured) <= Elems(copied) { CopiedAreKept(h, roots, measured, copied); }
    if ExpressionsKeptUnshared(h, roots) { KeptAreCopied(h, roots); }
  }

  lemma CopiedAreKept(h: Heap, roots: seq<Item>, measured: seq<nat>, copied: seq<nat>)
    requires HeapOk(h) && WorkOk(h, roots)
    requires measured == Walk(h, Measure, [], roots) && copied == Walk(h, Copy, [], roots)
    requires Elems(measured) <= Elems(copied)
    ensures forall p :: p in measured && h[p].RefObj? ==> Kept(h[p].root)
  {
    OnlyKeptCopied(h, [], roots);
    forall p | p in measured && h[p].RefObj? ensures Kept(h[p].root) { assert p in Elems(measured); }
  }

  lemma {:induction false} OnlyKeptCopied(h: Heap, log: seq<nat>, work: seq<Item>)
    requires HeapOk(h) && WorkOk(h, work)
    requires forall p :: p in log ==> p in h && (h[p].RefObj? ==> Kept(h[p].root))
    ensures forall p :: p in Walk(h, Copy, log, work) ==> p in h && (h[p].RefObj? ==> Kept(h[p].root))
    decreases Unlogged(h, log), WorkWeight(h, work)
  {
    if work != [] {
      var (log', more) := Step(h, Copy, log, work[0]);
      StepOk(h, Copy, log, work[0]);
      WorkWeightAppend(h, more, work[1..]);
      OnlyKeptCopied(h, log', more + work[1..]);
    }
  }

  /** If all measured expressions are kept, the copied set is closed under every pointer. */
  lemma KeptAreCopied(h: Heap, roots: seq<Item>)
    requires HeapOk(h) && WorkOk(h, roots) && ExpressionsKeptUnshared(h, roots)
    ensures Elems(Walk(h, Measure, [], roots)) <= Elems(Walk(h, Copy, [], roots))
  {
    SameWalk(h, [], roots);
  }

  /** Where nothing is dropped or met twice, both passes walk the same way. */
  lemma {:induction false} SameWalk(h: Heap, log: seq<nat>, work: seq<Item>)
    requires HeapOk(h) && WorkOk(h, work)
    requires NoRepeat(Walk(h, Measure, log, work))
    requires forall p :: p in Walk(h, Measure, log, work) && p in h && h[p].RefObj? ==> Kept(h[p].root)
    ensures Walk(h, Copy, log, work) == Walk(h, Measure, log, work)
    decreases Unlogged(h, log), WorkWeight(h, work)
  {
    if work != [] {
      var (log', more) := Step(h, Measure, log, work[0]);
      StepOk(h, Measure, log, work[0]);
      WorkWeightAppend(h, more, work[1..]);
      var end := Walk(h, Measure, log', more + work[1..]);
      assert log' <= end;
      if work[0].Val? && work[0].v.AstV? {
        assert end[|log|] == work[0].v.p;
        assert forall j :: 0 <= j < |log| ==> end[j] == log[j];
      }
      assert Step(h, Copy, log, work[0]) == (log', more);
      SameWalk(h, log', more + work[1..]);
    }
  }

  /** As long as the measured size stays below 2^35 bytes, the bound holds exactly when no
      copied expression holds a childless node. */
  lemma SizeBoundExact(h: Heap, roots: seq<Item>)
    requires HeapOk(h) && WorkOk(h, roots)
    requires Measured(h, roots) < WRAPPED
    ensures Taken(h, roots) <= Measured(h, roots) <==> NoChildlessCopied(h, roots)
  {
    if NoChildlessCopied(h, roots) {
      SizeBound(h, roots);
    } else {
      LogExcess(h, Walk(h, Copy, [], roots));
    }
  }

  /** An enum constant whose first child is an empty list. */
  const EMPTY_LIST_ENUM: Ast := Inner(EnumInit, [Inner(ListKind, []), Absent, Absent])
  const EMPTY_LIST_HEAP: Heap := map[1 := RefObj(EMPTY_LIST_ENUM)]

  lemma EmptyListHeapOk()
    ensures HeapOk(EMPTY_LIST_HEAP) && WorkOk(EMPTY_LIST_HEAP, [Val(AstV(1))])
    ensures AstOk(EMPTY_LIST_HEAP, 1, EMPTY_LIST_ENUM)
  {
    var h, kids := EMPTY_LIST_HEAP, EMPTY_LIST_ENUM.kids;
    assert kids[1..] == [Absent, Absent] && kids[1..][1..] == [Absent] && kids[1..][1..][1..] == [];
    assert KidsOk(h, 1, []) && KidsOk(h, 1, [Absent]) && KidsOk(h, 1, [Absent, Absent]);
    assert AstOk(h, 1, kids[0]) && KidsOk(h, 1, kids);
    assert ObjOk(h, 1);
  }

  lemma EmptyListWalk(pass: Pass)
    requires HeapOk(EMPTY_LIST_HEAP) && WorkOk(EMPTY_LIST_HEAP, [Val(AstV(1))])
    ensures Walk(EMPTY_LIST_HEAP, pass, [], [Val(AstV(1))]) == [1]
  {
    var h, kids, roots := EMPTY_LIST_HEAP, EMPTY_LIST_ENUM.kids, [Val(AstV(1))];
    var list, top := [Node(1, kids[0])], [Node(1, EMPTY_LIST_ENUM)];
    assert kids[1..] == [Absent, Absent] && kids[1..][1..] == [Absent] && kids[1..][1..][1..] == [];
    assert KidItems(1, kids[1..]) == [] && KidItems(1, kids) == list && KidItems(1, []) == [];
    assert list[1..] == [] && roots[1..] == [] && top[1..] == [] && [] + [1 as nat] == [1];
    WalkUnfold(h, pass, [], roots);
    assert Step(h, pass, [], roots[0]) == ([1], top) && top + roots[1..] == top;
    WalkUnfold(h, pass, [1], top);
    assert Step(h, pass, [1], top[0]) == ([1], list) && list + top[1..] == list;
    WalkUnfold(h, pass, [1], list);
  }

  /** The smallest failing input: the copy of one empty list takes 2^35 bytes more than was measured. */
  lemma ChildlessNodeOverruns()
    ensures HeapOk(EMPTY_LIST_HEAP) && WorkOk(EMPTY_LIST_HEAP, [Val(AstV(1))])
    ensures Taken(EMPTY_LIST_HEAP, [Val(AstV(1))]) == Measured(EMPTY_LIST_HEAP, [Val(AstV(1))]) + WRAPPED
  {
    EmptyListHeapOk();
    EmptyListWalk(Measure);
    EmptyListWalk(Copy);
    hide HeapOk, Walk;
    var h, kids := EMPTY_LIST_HEAP, EMPTY_LIST_ENUM.kids;
    TreeExcess(h, 1, EMPTY_LIST_ENUM);
    assert kids[1..] == [Absent, Absent] && kids[1..][1..] == [Absent] && kids[1..][1..][1..] == [];
    assert ChildlessKids(kids[1..]) == 0 && Childless(EMPTY_LIST_ENUM) == 1;
    var one := [1 as nat];
    assert one[..0] == [];
    assert LogBytes(Copy, h, one) == ObjBytes(Copy, h[1]) && LogBytes(Measure, h, one) == ObjBytes(Measure, h[1]);
  }
}
