/**
 Loading, registering and resetting scripts: the loaded_scripts list, the global function and
 constant tables, and who owns the memory behind them.
 */
module Lifecycle {
  import opened Sequences
  import opened SharedAlloc
  import opened Wrappers

  type Name = string

  /** What a table entry points at: an address inside a loaded script, or something others own. */
  datatype Ref = Own(at: nat) | Foreign(id: nat)

  type Table = map<Name, Ref>

  /**
   A zend_function under its lowercase name, or a zend_constant under its name.  Only user functions
   and named constants are considered.
   */
  datatype Symbol = Symbol(name: Name, at: nat, considered: bool)

  datatype Script = Script(funcs: seq<Symbol>, consts: seq<Symbol>)

  /** A script file: offsets into total bytes, whether the stream delivers them, and where emalloc would place them. */
  datatype File = File(script: Script, total: size_t, readOk: bool, at: nat)

  /** A loaded script and its buffer of size bytes at mem. */
  datatype Node = Node(script: Script, mem: nat, size: nat, inShm: bool, executed: bool)

  // ---------------------------------------------------------------- registering

  /** zend_hash_update_ptr for every symbol considered, in order. */
  function Update(t: Table, s: seq<Symbol>): Table {
    if s == [] then t else
      var before := Update(t, s[..|s| - 1]);
      var x := s[|s| - 1];
      if x.considered then before[x.name := Own(x.at)] else before
  }

  /** Symbol i is the last one of that name. */
  ghost predicate LastOf(s: seq<Symbol>, i: nat, name: Name) {
    && i < |s| && s[i].considered && s[i].name == name
    && forall j: nat | i < j < |s| :: !(s[j].considered && s[j].name == name)
  }

  ghost predicate Absent(s: seq<Symbol>, name: Name) {
    forall j: nat | j < |s| :: !(s[j].considered && s[j].name == name)
  }

  lemma {:induction false} UpdateAppend(t: Table, a: seq<Symbol>, b: seq<Symbol>)
    ensures Update(t, a + b) == Update(Update(t, a), b)
    decreases b
  {
    if b == [] {
      assert a + b == a;
    } else {
      UpdateAppend(t, a, b[..|b| - 1]);
      assert (a + b)[..|a + b| - 1] == a + b[..|b| - 1];
    }
  }

  lemma {:induction false} UpdateAbsent(t: Table, s: seq<Symbol>, name: Name)
    requires Absent(s, name)
    ensures name in Update(t, s) <==> name in t
    ensures name in t ==> Update(t, s)[name] == t[name]
    decreases s
  {
    if s != [] {
      var b := s[..|s| - 1];
      forall j: nat | j < |b| ensures !(b[j].considered && b[j].name == name) {
        assert b[j] == s[j];
      }
      UpdateAbsent(t, b, name);
    }
  }

  lemma UpdateLast(t: Table, s: seq<Symbol>, i: nat, name: Name)
    requires LastOf(s, i, name)
    ensures name in Update(t, s) && Update(t, s)[name] == Own(s[i].at)
  {
    var before, after := s[..i + 1], s[i + 1..];
    assert s == before + after && before[..i] == s[..i];
    UpdateAppend(t, before, after);
    UpdateAbsent(Update(t, before), after, name);
  }

  // ---------------------------------------------------------------- cleaning

  /** The symbols refer to this entry. */
  predicate Refers(s: seq<Symbol>, name: Name, r: Ref) {
    exists i | 0 <= i < |s| :: s[i].considered && s[i].name == name && r == Own(s[i].at)
  }

  /** t without the entries that point at the symbols under their own names. */
  function Without(t: Table, s: seq<Symbol>): Table {
    map n | n in t && !Refers(s, n, t[n]) :: t[n]
  }

  function OnlyForeign(t: Table): Table {
    map n | n in t && t[n].Foreign? :: t[n]
  }

  /** Every entry that points into a script points at one of the symbols, under its name. */
  ghost predicate Owned(t: Table, s: seq<Symbol>) {
    forall n <- t :: t[n].Own? ==> Refers(s, n, t[n])
  }

  /** What is removed, entry by entry. */
  lemma WithoutExactly(t: Table, s: seq<Symbol>)
    ensures forall n: Name :: n in Without(t, s) <==>
              n in t && forall i: nat | i < |s| && s[i].considered :: s[i].name == n ==> t[n] != Own(s[i].at)
  {
  }

  lemma WithoutStep(t: Table, s: seq<Symbol>, x: Symbol)
    ensures var w := Without(t, s);
            Without(t, s + [x]) == if x.considered && x.name in w && w[x.name] == Own(x.at) then w - {x.name} else w
  {
    var w, after := Without(t, s), Without(t, s + [x]);
    forall n | n in t
      ensures Refers(s + [x], n, t[n]) <==> Refers(s, n, t[n]) || (x.considered && x.name == n && t[n] == Own(x.at))
    {
      RefersAppend(s, [x], n, t[n]);
      RefersOne(x, n, t[n]);
    }
  }

  lemma RefersOne(x: Symbol, n: Name, r: Ref)
    ensures Refers([x], n, r) <==> x.considered && x.name == n && r == Own(x.at)
  {
    var one := [x];
    assert one[0] == x;
  }

  lemma RefersAppend(a: seq<Symbol>, b: seq<Symbol>, n: Name, r: Ref)
    ensures Refers(a + b, n, r) <==> Refers(a, n, r) || Refers(b, n, r)
  {
    if Refers(a, n, r) {
      var i :| 0 <= i < |a| && a[i].considered && a[i].name == n && r == Own(a[i].at);
      assert (a + b)[i] == a[i];
    }
    if Refers(b, n, r) {
      var i :| 0 <= i < |b| && b[i].considered && b[i].name == n && r == Own(b[i].at);
      assert (a + b)[|a| + i] == b[i];
    }
  }

  lemma WithoutAppend(t: Table, a: seq<Symbol>, b: seq<Symbol>)
    ensures Without(Without(t, a), b) == Without(t, a + b)
  {
    forall n | n in t ensures Refers(a + b, n, t[n]) <==> Refers(a, n, t[n]) || Refers(b, n, t[n]) {
      RefersAppend(a, b, n, t[n]);
    }
  }

  lemma WithoutNone(t: Table)
    ensures Without(t, []) == t
  {
  }

  lemma WithoutOwned(t: Table, s: seq<Symbol>)
    requires Owned(t, s)
    ensures Without(t, s) == OnlyForeign(t)
  {
  }

  lemma {:induction false} OwnedUpdate(t: Table, s: seq<Symbol>, all: seq<Symbol>)
    requires Owned(t, all) && forall x <- s :: x in all
    ensures Owned(Update(t, s), all)
    decreases s
  {
    if s != [] {
      var x := s[|s| - 1];
      OwnedUpdate(t, s[..|s| - 1], all);
      assert x in all;
    }
  }

  lemma OwnedGrows(t: Table, s: seq<Symbol>, all: seq<Symbol>)
    requires Owned(t, s) && forall x <- s :: x in all
    ensures Owned(t, all)
  {
    forall n | n in t && t[n].Own? ensures Refers(all, n, t[n]) {
      var i :| 0 <= i < |s| && s[i].considered && s[i].name == n && t[n] == Own(s[i].at);
      assert s[i] in all;
    }
  }

  // ---------------------------------------------------------------- what others own

  /** t without the names registered over it: registering overwrites an entry of others, cleaning deletes it. */
  ghost function Kept(t: Table, s: seq<Symbol>): Table {
    map n | n in t && Absent(s, n) :: t[n]
  }

  lemma KeptAppend(t: Table, a: seq<Symbol>, b: seq<Symbol>)
    ensures Kept(Kept(t, a), b) == Kept(t, a + b)
  {
    forall n | n in t ensures Absent(a + b, n) <==> Absent(a, n) && Absent(b, n) { AbsentAppend(a, b, n); }
    forall n ensures n in Kept(Kept(t, a), b) <==> n in Kept(t, a + b) {
      assert n in Kept(t, a + b) <==> n in t && Absent(a + b, n);
      assert n in Kept(t, a) <==> n in t && Absent(a, n);
    }
  }

  lemma AbsentAppend(a: seq<Symbol>, b: seq<Symbol>, n: Name)
    ensures Absent(a + b, n) <==> Absent(a, n) && Absent(b, n)
  {
    var both := a + b;
    if Absent(both, n) {
      assert forall j: nat | j < |a| :: a[j] == both[j];
      assert forall j: nat | j < |b| :: b[j] == both[|a| + j];
    }
  }

  lemma {:induction false} KeptUpdate(t: Table, s: seq<Symbol>)
    ensures OnlyForeign(Update(t, s)) == Kept(OnlyForeign(t), s)
    decreases s
  {
    if s != [] {
      var before, x := s[..|s| - 1], s[|s| - 1];
      KeptUpdate(t, before);
      assert s == before + [x];
      KeptAppend(OnlyForeign(t), before, [x]);
      var u, one := Update(t, before), [x];
      assert one[0] == x;
      assert OnlyForeign(Update(t, s)) == Kept(OnlyForeign(u), one);
    }
  }

  lemma KeptNone(t: Table)
    ensures Kept(t, []) == t
  {
  }

  /** Both lists name the same symbols, perhaps at other addresses or in another order. */
  ghost predicate SameNames(a: seq<Symbol>, b: seq<Symbol>) {
    forall n: Name :: Absent(a, n) <==> Absent(b, n)
  }

  lemma SameNamesKeep(t: Table, a: seq<Symbol>, b: seq<Symbol>)
    requires SameNames(a, b)
    ensures Kept(t, a) == Kept(t, b)
  {
    forall n ensures n in Kept(t, a) <==> n in Kept(t, b) {
      assert Absent(a, n) <==> Absent(b, n);
    }
  }

  lemma SameNamesAppend(a: seq<Symbol>, b: seq<Symbol>, c: seq<Symbol>, d: seq<Symbol>)
    requires SameNames(a, b) && SameNames(c, d)
    ensures SameNames(a + c, b + d) && SameNames(c + a, b + d)
  {
    forall n: Name ensures (Absent(a + c, n) <==> Absent(b + d, n)) && (Absent(c + a, n) <==> Absent(b + d, n)) {
      AbsentAppend(a, c, n);
      AbsentAppend(c, a, n);
      AbsentAppend(b, d, n);
    }
  }

  // ---------------------------------------------------------------- all loaded scripts

  /** The functions, or the constants, of the nodes from the head of the list on. */
  function Symbols(nodes: seq<Node>, funcs: bool): seq<Symbol> {
    if nodes == [] then [] else
      Symbols(nodes[..|nodes| - 1], funcs) + Of(nodes[|nodes| - 1], funcs)
  }

  function Of(n: Node, funcs: bool): seq<Symbol> {
    if funcs then n.script.funcs else n.script.consts
  }

  lemma {:induction false} SymbolsAppend(a: seq<Node>, b: seq<Node>, funcs: bool)
    ensures Symbols(a + b, funcs) == Symbols(a, funcs) + Symbols(b, funcs)
    decreases b
  {
    SymbolsSome(b, funcs);
    SymbolsSome(a + b, funcs);
    hide Of, Symbols;
    if b == [] {
      assert a + b == a;
    } else {
      var before, last := b[..|b| - 1], Of(b[|b| - 1], funcs);
      SymbolsAppend(a, before, funcs);
      assert (a + b)[..|a + b| - 1] == a + before;
      ConcatAssociates(Symbols(a, funcs), Symbols(before, funcs), last);
    }
  }

  lemma SymbolsSome(nodes: seq<Node>, funcs: bool)
    ensures Symbols(nodes, funcs) ==
              if nodes == [] then [] else Symbols(nodes[..|nodes| - 1], funcs) + Of(nodes[|nodes| - 1], funcs)
  {
  }

  lemma SymbolsStep(nodes: seq<Node>, k: nat, funcs: bool)
    requires k < |nodes|
    ensures Symbols(nodes[..k + 1], funcs) == Symbols(nodes[..k], funcs) + Of(nodes[k], funcs)
  {
    assert nodes[..k + 1][..k] == nodes[..k];
  }

  lemma SymbolsPrepend(n: Node, rest: seq<Node>, funcs: bool)
    ensures Symbols([n] + rest, funcs) == Of(n, funcs) + Symbols(rest, funcs)
  {
    SymbolsAppend([n], rest, funcs);
    assert [n][..0] == [];
    assert Symbols([n], funcs) == Of(n, funcs);
  }

  /** Symbol i of node k is the last of its name in the script, and no earlier loaded script has one. */
  ghost predicate Wins(nodes: seq<Node>, k: nat, i: nat, funcs: bool, name: Name) {
    k < |nodes| && LastOf(Of(nodes[k], funcs), i, name)
      && forall m: nat | k < m < |nodes| :: Absent(Of(nodes[m], funcs), name)
  }

  lemma {:induction false} AbsentFromAll(nodes: seq<Node>, funcs: bool, name: Name)
    requires forall m: nat | m < |nodes| :: Absent(Of(nodes[m], funcs), name)
    ensures Absent(Symbols(nodes, funcs), name)
  {
    if nodes != [] {
      var n := |nodes| - 1;
      AbsentFromAll(nodes[..n], funcs, name);
      assert Absent(Of(nodes[n], funcs), name);
      var a, b := Symbols(nodes[..n], funcs), Of(nodes[n], funcs);
      var both := a + b;
      forall j: nat | j < |both| ensures !(both[j].considered && both[j].name == name) {
        assert both[j] == if j < |a| then a[j] else b[j - |a|];
      }
    }
  }

  /** After registration a name maps to the earliest loaded script that defines it, to its last definition there. */
  lemma EarliestLoadedWins(t: Table, nodes: seq<Node>, k: nat, i: nat, funcs: bool, name: Name)
    requires Wins(nodes, k, i, funcs, name)
    ensures name in Update(t, Symbols(nodes, funcs))
    ensures Update(t, Symbols(nodes, funcs))[name] == Own(Of(nodes[k], funcs)[i].at)
  {
    var a, b, c := Symbols(nodes[..k], funcs), Of(nodes[k], funcs), Symbols(nodes[k + 1..], funcs);
    assert nodes == nodes[..k + 1] + nodes[k + 1..];
    SymbolsAppend(nodes[..k + 1], nodes[k + 1..], funcs);
    SymbolsStep(nodes, k, funcs);
    UpdateAppend(t, a + b, c);
    UpdateAppend(t, a, b);
    UpdateLast(Update(t, a), b, i, name);
    AbsentFromAll(nodes[k + 1..], funcs, name);
    UpdateAbsent(Update(t, a + b), c, name);
  }

  /** A name no loaded script defines keeps its entry. */
  lemma OthersKeepTheirNames(t: Table, nodes: seq<Node>, funcs: bool, name: Name)
    requires forall m: nat | m < |nodes| :: Absent(Of(nodes[m], funcs), name)
    ensures name in Update(t, Symbols(nodes, funcs)) <==> name in t
    ensures name in t ==> Update(t, Symbols(nodes, funcs))[name] == t[name]
  {
    AbsentFromAll(nodes, funcs, name);
    UpdateAbsent(t, Symbols(nodes, funcs), name);
  }

  // ---------------------------------------------------------------- memory

  predicate Disjoint(a: nat, n: nat, b: nat, m: nat) {
    a + n <= b || b + m <= a
  }

  /** The live emalloc blocks, by address, lie apart from each other and from the segment. */
  ghost predicate HeapOk(heap: map<nat, nat>, segment: Option<Segment>) {
    && (forall a <- heap :: a > 0 && heap[a] > 0)
    && (forall a <- heap, b <- heap | a != b :: Disjoint(a, heap[a], b, heap[b]))
    && (segment.Some? ==> forall a <- heap :: Disjoint(a, heap[a], segment.value.p, segment.value.size))
  }

  /** The buffer of the node is a live heap block, or lies in the used part of the segment; its symbols lie in it. */
  ghost predicate Placed(n: Node, heap: map<nat, nat>, segment: Option<Segment>) {
    && n.mem > 0 && n.size > 0
    && (if n.inShm then
          segment.Some? && segment.value.p <= n.mem && n.mem + n.size <= segment.value.p + segment.value.pos
        else
          n.mem in heap && heap[n.mem] == n.size)
    && forall s <- n.script.funcs + n.script.consts :: n.mem <= s.at < n.mem + n.size
  }

  /** All buffers are in place and no two scripts share memory. */
  ghost predicate NodesOk(nodes: seq<Node>, heap: map<nat, nat>, segment: Option<Segment>) {
    && (forall i: nat | i < |nodes| :: Placed(nodes[i], heap, segment))
    && forall i: nat, j: nat | i < j < |nodes| :: Disjoint(nodes[i].mem, nodes[i].size, nodes[j].mem, nodes[j].size)
  }

  /** The emalloc blocks of the nodes. */
  function HeapMems(nodes: seq<Node>): set<nat> {
    set i | 0 <= i < |nodes| && !nodes[i].inShm :: nodes[i].mem
  }

  /** The file's script at its load address: offsets become addresses. */
  function At(file: Script, buf: nat): Script {
    Script(MoveTo(file.funcs, buf), MoveTo(file.consts, buf))
  }

  function MoveTo(s: seq<Symbol>, buf: nat): seq<Symbol> {
    seq(|s|, i requires 0 <= i < |s| => s[i].(at := buf + s[i].at))
  }

  /** The node of a file that was read: its symbols moved to its buffer. */
  ghost predicate LoadedAs(n: Node, file: File, fits: bool) {
    n.size == file.total && n.script == At(file.script, n.mem) && n.inShm == fits && (!fits ==> n.mem == file.at)
  }

  ghost predicate FreshAt(at: nat, size: nat, heap: map<nat, nat>, segment: Option<Segment>) {
    && at > 0
    && (forall a <- heap :: Disjoint(a, heap[a], at, size))
    && (segment.Some? ==> Disjoint(at, size, segment.value.p, segment.value.size))
  }

  /** Where the buffer of a script may lie: inside the segment, or apart from it. */
  ghost predicate BufferAt(mem: nat, size: nat, inShm: bool, segment: Option<Segment>) {
    && mem > 0 && size > 0
    && if inShm then segment.Some? && segment.value.p <= mem && mem + size <= segment.value.p + segment.value.size
       else segment.Some? ==> Disjoint(mem, size, segment.value.p, segment.value.size)
  }

  /** Symbol i is the last one of that name that is considered. */
  ghost predicate Defines(s: seq<Symbol>, i: nat, name: Name) {
    && i < |s| && s[i].name == name && s[i].considered
    && forall j: nat | i < j < |s| && s[j].considered :: s[j].name != name
  }

  /** Every symbol keeps its name and kind, and its address is mem plus its offset. */
  ghost predicate MovedBy(now: seq<Symbol>, was: seq<Symbol>, mem: nat) {
    && |now| == |was|
    && forall i: nat | i < |was| ::
         now[i].name == was[i].name && now[i].considered == was[i].considered && now[i].at == mem + was[i].at
  }

  lemma SymbolsMoved(file: Script, buf: nat)
    ensures MovedBy(At(file, buf).funcs, file.funcs, buf) && MovedBy(At(file, buf).consts, file.consts, buf)
  {
  }

  lemma MovedDefines(s: seq<Symbol>, buf: nat, i: nat, name: Name)
    requires Defines(s, i, name)
    ensures LastOf(MoveTo(s, buf), i, name) && MoveTo(s, buf)[i].at == buf + s[i].at
  {
  }

  lemma ConstantsDefined(t: Table, file: Script, buf: nat)
    ensures forall i: nat, name: Name | Defines(file.consts, i, name) ::
              var after := Update(t, At(file, buf).consts);
              name in after && after[name] == Own(buf + file.consts[i].at)
  {
    hide Update;
    forall i: nat, name: Name | Defines(file.consts, i, name)
      ensures var after := Update(t, At(file, buf).consts);
              name in after && after[name] == Own(buf + file.consts[i].at)
    {
      MovedDefines(file.consts, buf, i, name);
      UpdateLast(t, At(file, buf).consts, i, name);
    }
  }

  /** What the head of the list defines and no other script does. */
  lemma HeadWins(t: Table, nodes: seq<Node>, funcs: bool, s: seq<Symbol>)
    requires nodes != [] && MovedBy(Of(nodes[0], funcs), s, nodes[0].mem)
    ensures forall i: nat, name: Name | Defines(s, i, name) ::
              (forall m: nat, j: nat | 0 < m < |nodes| && j < |Of(nodes[m], funcs)| ::
                 Of(nodes[m], funcs)[j].name != name) ==>
                name in Update(t, Symbols(nodes, funcs))
                && Update(t, Symbols(nodes, funcs))[name] == Own(nodes[0].mem + s[i].at)
  {
    hide Of, Symbols, Update;
    forall i: nat, name: Name | Defines(s, i, name)
      && forall m: nat, j: nat | 0 < m < |nodes| && j < |Of(nodes[m], funcs)| :: Of(nodes[m], funcs)[j].name != name
      ensures name in Update(t, Symbols(nodes, funcs))
      ensures Update(t, Symbols(nodes, funcs))[name] == Own(nodes[0].mem + s[i].at)
    {
      EarliestLoadedWins(t, nodes, 0, i, funcs, name);
    }
  }

  lemma MovedNames(s: seq<Symbol>, buf: nat)
    ensures SameNames(MoveTo(s, buf), s)
  {
    var m := MoveTo(s, buf);
    assert forall j: nat | j < |s| :: m[j].name == s[j].name && m[j].considered == s[j].considered;
  }

  /** The files from k on can be loaded one after the other; the buffer of one that cannot be read is free again. */
  ghost predicate FilesOk(files: seq<File>, k: nat, heap: map<nat, nat>, segment: Option<Segment>) {
    && (forall i: nat | k <= i < |files| ::
          && files[i].total > 0 && FreshAt(files[i].at, files[i].total, heap, segment)
          && forall s <- files[i].script.funcs + files[i].script.consts :: s.at < files[i].total)
    && forall i: nat, j: nat | k <= i < j < |files| && files[i].readOk ::
         Disjoint(files[i].at, files[i].total, files[j].at, files[j].total)
  }

  /** The symbols of the files that could be read. */
  function FileSymbols(files: seq<File>, funcs: bool): seq<Symbol> {
    if files == [] then [] else
      var f := files[|files| - 1];
      FileSymbols(files[..|files| - 1], funcs) + (if !f.readOk then [] else if funcs then f.script.funcs
                                                  else f.script.consts)
  }

  lemma MovedInside(file: Script, buf: nat, size: nat)
    requires forall s <- file.funcs + file.consts :: s.at < size
    ensures forall s <- At(file, buf).funcs + At(file, buf).consts :: buf <= s.at < buf + size
  {
    forall s <- At(file, buf).funcs + At(file, buf).consts ensures buf <= s.at < buf + size {
      if s in At(file, buf).funcs {
        var i :| 0 <= i < |file.funcs| && MoveTo(file.funcs, buf)[i] == s;
        assert file.funcs[i] in file.funcs + file.consts;
      } else {
        var i :| 0 <= i < |file.consts| && MoveTo(file.consts, buf)[i] == s;
        assert file.consts[i] in file.funcs + file.consts;
      }
    }
  }

  // ---------------------------------------------------------------- the engine

  class Engine {
    const shm: Allocator
    var functions: Table
    var constants: Table
    /** The head of loaded_scripts first. */
    var loaded: seq<Node>
    /** The live emalloc blocks and their sizes. */
    var heap: map<nat, nat>
    /** The tables as others last left them, and the symbols registered since. */
    ghost var functions0: Table
    ghost var constants0: Table
    ghost var registeredF: seq<Symbol>
    ghost var registeredC: seq<Symbol>

    constructor (shm: Allocator, functions: Table, constants: Table, heap: map<nat, nat>)
      requires shm.Valid() && HeapOk(heap, shm.segment) && OnlyForeign(functions) == functions
      requires OnlyForeign(constants) == constants
      ensures Valid() && this.shm == shm && this.functions == functions && this.constants == constants
      ensures this.heap == heap && loaded == []
    {
      this.shm, this.functions, this.constants, this.loaded, this.heap := shm, functions, constants, [], heap;
      functions0, constants0, registeredF, registeredC := functions, constants, [], [];
      new;
      KeptNone(functions);
      KeptNone(constants);
      assert forall n <- functions :: n in OnlyForeign(functions);
      assert forall n <- constants :: n in OnlyForeign(constants);
    }

    /** No entry dangles: what points into a script points at a loaded script's symbol of that name.
        What others own is what they left, but for the names registered since. */
    ghost predicate Valid()
      reads this, shm
    {
      && shm.Valid() && HeapOk(heap, shm.segment) && NodesOk(loaded, heap, shm.segment)
      && Owned(functions, Symbols(loaded, true)) && Owned(constants, Symbols(loaded, false))
      && OnlyForeign(functions) == Kept(functions0, registeredF)
      && OnlyForeign(constants) == Kept(constants0, registeredC)
    }

    /** The aligned request fits in what is left of the segment. */
    ghost predicate FitsInShm(total: size_t)
      reads shm
    {
      shm.segment.Some? && total <= AlignedSize(total) <= shm.segment.value.size - shm.segment.value.pos
    }

    method EMalloc(size: nat, at: nat)
      requires size > 0 && HeapOk(heap, shm.segment) && FreshAt(at, size, heap, shm.segment)
      modifies this`heap
      ensures HeapOk(heap, shm.segment) && at !in old(heap) && heap == old(heap)[at := size]
    {
      heap := heap[at := size];
    }

    /** Only a live block may be freed. */
    method EFree(at: nat)
      requires at in heap
      modifies this`heap
      ensures heap == old(heap) - {at}
    {
      heap := heap - {at};
    }

    /** opkit_keep_memory: the node goes in front and knows whether its buffer is shared. */
    method KeepMemory(script: Script, mem: nat, size: nat, ghost useShm: bool)
      requires BufferAt(mem, size, useShm, shm.segment)
      modifies this`loaded
      ensures loaded == [Node(script, mem, size, useShm, false)] + old(loaded)
    {
      var inShm := mem != 0 && shm.InShm(mem);
      loaded := [Node(script, mem, size, inShm, false)] + loaded;
    }

    /** The registration loops, over the functions or the constants of one script. */
    method Register(script: Script, funcs: bool)
      modifies this`functions, this`constants
      ensures functions == if funcs then Update(old(functions), script.funcs) else old(functions)
      ensures constants == if funcs then old(constants) else Update(old(constants), script.consts)
    {
      if funcs {
        for k := 0 to |script.funcs|
          invariant functions == Update(old(functions), script.funcs[..k]) && constants == old(constants)
        {
          assert script.funcs[..k + 1][..k] == script.funcs[..k];
          var f := script.funcs[k];
          if f.considered {
            functions := functions[f.name := Own(f.at)];
          }
        }
        assert script.funcs[..|script.funcs|] == script.funcs;
      } else {
        for k := 0 to |script.consts|
          invariant constants == Update(old(constants), script.consts[..k]) && functions == old(functions)
        {
          assert script.consts[..k + 1][..k] == script.consts[..k];
          var c := script.consts[k];
          if c.considered {
            constants := constants[c.name := Own(c.at)];
          }
        }
        assert script.consts[..|script.consts|] == script.consts;
      }
    }

    /** The buffer of opkit_compile_script_load: in the segment when it fits there, on the heap otherwise. */
    method GetBuffer(total: size_t, at: nat) returns (buf: nat, useShm: bool)
      requires shm.Valid() && HeapOk(heap, shm.segment) && total > 0 && FreshAt(at, total, heap, shm.segment)
      modifies this`heap, shm
      ensures shm.Valid() && HeapOk(heap, shm.segment)
      ensures useShm <==> old(FitsInShm(total))
      ensures BufferAt(buf, total, useShm, shm.segment)
      ensures !useShm ==>
                buf == at && at !in old(heap) && heap == old(heap)[at := total] && shm.segment == old(shm.segment)
      ensures useShm ==> heap == old(heap) && buf == old(shm.segment.value.p + shm.segment.value.pos)
                         && shm.segment == Some(old(shm.segment.value).(pos := old(shm.segment.value.pos)
                                                                        + AlignedSize(total)))
    {
      useShm := false;
      AlignedHolds(total);
      if shm.FreeMemory() >= total {
        var r := shm.Alloc(total);
        if r != 0 {
          return r, true;
        }
      }
      EMalloc(total, at);
      buf := at;
    }

    /**
     opkit_load.  The bytes taken from the segment stay taken when the file cannot be read.
     */
    method Load(file: File) returns (ok: bool)
      requires Valid() && file.total > 0 && forall s <- file.script.funcs + file.script.consts :: s.at < file.total
      requires FreshAt(file.at, file.total, heap, shm.segment)
      modifies this, shm
      ensures Valid() && ok == file.readOk
      ensures functions == old(functions) && functions0 == old(functions0) && registeredF == old(registeredF)
      ensures constants0 == old(constants0)
      ensures shm.segment == if !old(FitsInShm(file.total)) then old(shm.segment)
                             else Some(old(shm.segment.value).(pos := old(shm.segment.value.pos)
                                                               + AlignedSize(file.total)))
      ensures !ok ==>
                loaded == old(loaded) && heap == old(heap)
                && constants == old(constants) && registeredC == old(registeredC)
      ensures ok ==> exists n: Node :: loaded == [n] + old(loaded) && LoadedAs(n, file, old(FitsInShm(file.total)))
                                       && constants == Update(old(constants), n.script.consts)
                                       && registeredC == old(registeredC) + n.script.consts
                                       && heap == (if n.inShm then old(heap) else old(heap)[n.mem := file.total])
      ensures ok ==> loaded != [] && MovedBy(loaded[0].script.funcs, file.script.funcs, loaded[0].mem)
                     && MovedBy(loaded[0].script.consts, file.script.consts, loaded[0].mem)
      ensures ok ==> forall i: nat, name: Name | Defines(file.script.consts, i, name) ::
                       name in constants && constants[name] == Own(loaded[0].mem + file.script.consts[i].at)
    {
      hide HeapOk, Disjoint, FreshAt, Owned, Symbols, AlignedSize, At, Update, NodesOk, Placed, Kept, OnlyForeign;
      hide MovedBy, Defines;
      var buf, useShm := GetBuffer(file.total, file.at);
      NodesKeep(loaded, old(heap), old(shm.segment), heap, shm.segment);
      if !file.readOk {
        if !useShm {
          EFree(buf);
          assert heap == old(heap);
        }
        return false;
      }
      ghost var n := Node(At(file.script, buf), buf, file.total, useShm, false);
      MovedInside(file.script, buf, file.total);
      NewNodeFits(n, loaded, old(heap), old(shm.segment), heap, shm.segment);
      Accept(file, buf, useShm);
      assert loaded == [n] + old(loaded) && LoadedAs(n, file, useShm);
      ok := true;
    }

    /** The second half of opkit_load: the script in the buffer is registered and kept. */
    method Accept(file: File, buf: nat, ghost useShm: bool)
      requires Valid() && BufferAt(buf, file.total, useShm, shm.segment)
      requires NodesOk([Node(At(file.script, buf), buf, file.total, useShm, false)] + loaded, heap, shm.segment)
      modifies this`loaded, this`functions, this`constants, this`registeredC
      ensures Valid() && functions == old(functions)
      ensures loaded == [Node(At(file.script, buf), buf, file.total, useShm, false)] + old(loaded)
      ensures constants == Update(old(constants), At(file.script, buf).consts)
      ensures registeredC == old(registeredC) + At(file.script, buf).consts
      ensures MovedBy(loaded[0].script.funcs, file.script.funcs, buf)
      ensures MovedBy(loaded[0].script.consts, file.script.consts, buf)
      ensures forall i: nat, name: Name | Defines(file.script.consts, i, name) ::
                name in constants && constants[name] == Own(buf + file.script.consts[i].at)
    {
      hide HeapOk, Owned, Symbols, At, Update, NodesOk, Kept, OnlyForeign;
      var script := At(file.script, buf);
      Register(script, false);
      registeredC := registeredC + script.consts;
      KeptUpdate(old(constants), script.consts);
      KeptAppend(constants0, old(registeredC), script.consts);
      KeepMemory(script, buf, file.total, useShm);
      LoadOwned(loaded[0], old(loaded), old(functions), old(constants));
      SymbolsMoved(file.script, buf);
      ConstantsDefined(old(constants), file.script, buf);
    }

    /**
     opkit_load and then phase 1 of opkit_boot: a name that no other loaded script defines maps to the
     place of its last definition in the file, moved into the buffer.
     */
    method LoadThenBoot(file: File) returns (ok: bool)
      requires Valid() && file.total > 0 && forall s <- file.script.funcs + file.script.consts :: s.at < file.total
      requires FreshAt(file.at, file.total, heap, shm.segment)
      modifies this, shm
      ensures Valid() && ok == file.readOk
      ensures ok ==> loaded != [] && forall i: nat, name: Name | Defines(file.script.funcs, i, name) ::
                       (forall m: nat, j: nat | m < |old(loaded)| && j < |old(loaded)[m].script.funcs| ::
                          old(loaded)[m].script.funcs[j].name != name) ==>
                         name in functions && functions[name] == Own(loaded[0].mem + file.script.funcs[i].at)
      ensures ok ==> loaded != [] && forall i: nat, name: Name | Defines(file.script.consts, i, name) ::
                       (forall m: nat, j: nat | m < |old(loaded)| && j < |old(loaded)[m].script.consts| ::
                          old(loaded)[m].script.consts[j].name != name) ==>
                         name in constants && constants[name] == Own(loaded[0].mem + file.script.consts[i].at)
    {
      hide HeapOk, Disjoint, FreshAt, Owned, Symbols, AlignedSize, At, Update, NodesOk, Kept, OnlyForeign, Defines;
      hide LoadedAs;
      ok := Load(file);
      if !ok {
        return;
      }
      ghost var nodes, f, c := loaded, functions, constants;
      var booted := Boot();
      HeadWins(f, nodes, true, file.script.funcs);
      HeadWins(c, nodes, false, file.script.consts);
    }

    /** Phase 1 of opkit_boot: every script of the list registers its symbols; executing them is not modelled. */
    method Boot() returns (ok: bool)
      requires Valid()
      modifies this
      ensures Valid() && (ok <==> old(loaded) != [])
      ensures functions == Update(old(functions), Symbols(old(loaded), true))
      ensures constants == Update(old(constants), Symbols(old(loaded), false))
      ensures heap == old(heap) && |loaded| == |old(loaded)|
      ensures forall i | 0 <= i < |loaded| :: loaded[i] == old(loaded)[i].(executed := ok)
      ensures functions0 == old(functions0) && registeredF == old(registeredF) + Symbols(old(loaded), true)
      ensures constants0 == old(constants0) && registeredC == old(registeredC) + Symbols(old(loaded), false)
    {
      hide Owned, Symbols, Update, NodesOk, HeapOk, Kept, OnlyForeign;
      NoSymbols();
      if loaded == [] {
        return false;
      }
      for k := 0 to |loaded|
        invariant loaded == old(loaded) && heap == old(heap)
        invariant functions0 == old(functions0) && constants0 == old(constants0)
        invariant registeredF == old(registeredF) && registeredC == old(registeredC)
        invariant functions == Update(old(functions), Symbols(loaded[..k], true))
        invariant constants == Update(old(constants), Symbols(loaded[..k], false))
      {
        RegisterStep(old(functions), loaded, k, true);
        RegisterStep(old(constants), loaded, k, false);
        Register(loaded[k].script, true);
        Register(loaded[k].script, false);
      }
      assert loaded[..|loaded|] == loaded;
      registeredF, registeredC := registeredF + Symbols(loaded, true), registeredC + Symbols(loaded, false);
      KeptUpdate(old(functions), Symbols(loaded, true));
      KeptAppend(functions0, old(registeredF), Symbols(loaded, true));
      KeptUpdate(old(constants), Symbols(loaded, false));
      KeptAppend(constants0, old(registeredC), Symbols(loaded, false));
      loaded := seq(|loaded|, i requires 0 <= i < |loaded| reads this`loaded => loaded[i].(executed := true));
      OwnedUpdate(old(functions), Symbols(old(loaded), true), Symbols(old(loaded), true));
      OwnedUpdate(old(constants), Symbols(old(loaded), false), Symbols(old(loaded), false));
      SameSymbols(old(loaded), loaded, true);
      SameSymbols(old(loaded), loaded, false);
      SamePlaces(old(loaded), loaded, heap, shm.segment);
      ok := true;
    }

    /** Everybody else may add, replace and remove entries, but owns none of ours. */
    method OthersChange(functions': Table, constants': Table)
      requires Valid()
      requires forall n <- functions' :: functions'[n].Foreign? || (n in functions && functions[n] == functions'[n])
      requires forall n <- constants' :: constants'[n].Foreign? || (n in constants && constants[n] == constants'[n])
      modifies this`functions, this`constants, this`functions0, this`constants0, this`registeredF, this`registeredC
      ensures Valid() && functions == functions' && constants == constants'
      ensures functions0 == OnlyForeign(functions') && constants0 == OnlyForeign(constants')
      ensures registeredF == registeredC == []
    {
      hide Symbols, NodesOk, HeapOk;
      functions, constants := functions', constants';
      functions0, constants0, registeredF, registeredC := OnlyForeign(functions'), OnlyForeign(constants'), [], [];
      KeptNone(functions0);
      KeptNone(constants0);
    }

    /** The functions and the constants of opkit_clean_script_items. */
    method CleanScriptItems(script: Script)
      modifies this`functions, this`constants
      ensures functions == Without(old(functions), script.funcs)
      ensures constants == Without(old(constants), script.consts)
      ensures forall n: Name :: n in functions <==>
                n in old(functions) && forall i: nat | i < |script.funcs| && script.funcs[i].considered ::
                  script.funcs[i].name == n ==> old(functions)[n] != Own(script.funcs[i].at)
      ensures forall n: Name :: n in constants <==>
                n in old(constants) && forall i: nat | i < |script.consts| && script.consts[i].considered ::
                  script.consts[i].name == n ==> old(constants)[n] != Own(script.consts[i].at)
    {
      WithoutExactly(old(functions), script.funcs);
      WithoutExactly(old(constants), script.consts);
      hide Without;
      WithoutNone(functions);
      WithoutNone(constants);
      for k := 0 to |script.funcs|
        invariant functions == Without(old(functions), script.funcs[..k]) && constants == old(constants)
      {
        WithoutStep(old(functions), script.funcs[..k], script.funcs[k]);
        assert script.funcs[..k + 1] == script.funcs[..k] + [script.funcs[k]];
        var f := script.funcs[k];
        if f.considered && f.name in functions && functions[f.name] == Own(f.at) {
          functions := functions - {f.name};
        }
      }
      assert script.funcs[..|script.funcs|] == script.funcs;
      for k := 0 to |script.consts|
        invariant constants == Without(old(constants), script.consts[..k])
        invariant functions == Without(old(functions), script.funcs)
      {
        WithoutStep(old(constants), script.consts[..k], script.consts[k]);
        assert script.consts[..k + 1] == script.consts[..k] + [script.consts[k]];
        var c := script.consts[k];
        if c.considered && c.name in constants && constants[c.name] == Own(c.at) {
          constants := constants - {c.name};
        }
      }
      assert script.consts[..|script.consts|] == script.consts;
    }

    /**
     opkit_reset_script: what pointed into the scripts is gone; what others owned is still there if and
     only if no name like it was registered since they last changed the tables; and exactly the heap
     buffers were freed.
     */
    method Reset()
      requires Valid()
      modifies this
      ensures Valid() && loaded == []
      ensures functions == Kept(old(functions0), old(registeredF))
      ensures constants == Kept(old(constants0), old(registeredC))
      ensures functions0 == functions && constants0 == constants && registeredF == registeredC == []
      ensures functions == OnlyForeign(old(functions)) && constants == OnlyForeign(old(constants))
      ensures forall n: Name :: n in functions <==> n in old(functions) && old(functions)[n].Foreign?
      ensures forall n: Name :: n in constants <==> n in old(constants) && old(constants)[n].Foreign?
      ensures heap == old(heap) - HeapMems(old(loaded))
      ensures forall a: nat :: a in heap <==> a in old(heap) && forall i: nat | i < |old(loaded)| ::
                !old(loaded)[i].inShm ==> old(loaded)[i].mem != a
    {
      ForeignOnly(functions);
      ForeignOnly(constants);
      MemsOf(loaded);
      hide Owned, Symbols, Without, OnlyForeign, NodesOk, Placed, HeapOk, HeapMems, Kept;
      ghost var nodes := loaded;
      NoSymbols();
      WithoutNone(functions);
      WithoutNone(constants);
      NoHeapMems();
      var i := 0;
      while i < |loaded|
        invariant 0 <= i <= |loaded| && loaded == nodes && shm.Valid()
        invariant functions == Without(old(functions), Symbols(nodes[..i], true))
        invariant constants == Without(old(constants), Symbols(nodes[..i], false))
        invariant heap == old(heap) - HeapMems(nodes[..i])
      {
        var node := loaded[i];
        SymbolsStep(nodes, i, true);
        SymbolsStep(nodes, i, false);
        WithoutAppend(old(functions), Symbols(nodes[..i], true), node.script.funcs);
        WithoutAppend(old(constants), Symbols(nodes[..i], false), node.script.consts);
        CleanScriptItems(node.script);
        StillLive(nodes, i, old(heap), shm.segment);
        if node.mem != 0 && !node.inShm {
          EFree(node.mem);
        }
        i := i + 1;
      }
      assert nodes[..|nodes|] == nodes;
      WithoutOwned(old(functions), Symbols(nodes, true));
      WithoutOwned(old(constants), Symbols(nodes, false));
      loaded := [];
      functions0, constants0, registeredF, registeredC := functions, constants, [], [];
      KeptNone(functions);
      KeptNone(constants);
      ForeignTwice(old(functions));
      ForeignTwice(old(constants));
      NothingLeft(old(functions), old(constants), old(heap), HeapMems(nodes), shm.segment);
    }

    /**
     One run: load some files, perhaps boot, reset.  An entry of others survives if and only if no file
     that was read defines its name; loading registers constants already, functions take a boot.
     */
    method Session(files: seq<File>, boot: bool)
      requires Valid() && loaded == [] && FilesOk(files, 0, heap, shm.segment)
      modifies this, shm
      ensures Valid() && loaded == []
      ensures functions == Kept(old(functions), if boot then FileSymbols(files, true) else [])
      ensures constants == Kept(old(constants), FileSymbols(files, false))
      ensures forall n: Name :: n in functions <==>
                n in old(functions) && (boot ==> forall k: nat, i: nat | k < |files| && files[k].readOk &&
                  i < |files[k].script.funcs| && files[k].script.funcs[i].considered ::
                    files[k].script.funcs[i].name != n)
      ensures forall n: Name :: n in constants <==>
                n in old(constants) && forall k: nat, i: nat | k < |files| && files[k].readOk &&
                  i < |files[k].script.consts| && files[k].script.consts[i].considered ::
                    files[k].script.consts[i].name != n
    {
      hide Owned, Symbols, NodesOk, HeapOk, Kept, OnlyForeign, SameNames, FileSymbols, FilesOk, Update, At, AlignedSize;
      hide FreshAt;
      ghost var consts: seq<Symbol> := [];
      AllForeign(functions, true);
      AllForeign(constants, false);
      NoNames(files);
      for k := 0 to |files|
        invariant Valid() && FilesOk(files, k, heap, shm.segment)
        invariant functions0 == old(functions0) && registeredF == old(registeredF)
        invariant constants0 == old(constants0) && registeredC == old(registeredC) + consts
        invariant SameNames(consts, FileSymbols(files[..k], false))
        invariant SameNames(Symbols(loaded, true), FileSymbols(files[..k], true))
        invariant SameNames(Symbols(loaded, false), FileSymbols(files[..k], false))
      {
        ghost var nodes, heap0, seg0 := loaded, heap, shm.segment;
        NextFile(files, k, heap, shm.segment);
        var ok := Load(files[k]);
        FilesStay(files, k, heap0, seg0, heap, shm.segment);
        if ok {
          ghost var n := loaded[0];
          assert loaded == [n] + nodes;
          ReadNames(files, k, n, nodes, true, Symbols(nodes, true));
          ReadNames(files, k, n, nodes, false, consts);
          consts := consts + n.script.consts;
        } else {
          UnreadNames(files, k);
        }
      }
      assert files[..|files|] == files;
      ghost var funcs: seq<Symbol> := [];
      if boot {
        funcs := Symbols(loaded, true);
        TwiceNamed(consts, Symbols(loaded, false), FileSymbols(files, false));
        consts := consts + Symbols(loaded, false);
        var booted := Boot();
        assert registeredC == old(registeredC) + consts;
      }
      assert registeredF == old(registeredF) + funcs;
      KeptFrom(old(functions), old(functions0), old(registeredF), funcs, if boot then FileSymbols(files, true) else []);
      KeptFrom(old(constants), old(constants0), old(registeredC), consts, FileSymbols(files, false));
      Reset();
      KeptNames(old(functions), files);
      KeptNames(old(constants), files);
      KeptNone(old(functions));
    }

    lemma AllForeign(t: Table, funcs: bool)
      requires Owned(t, Symbols([], funcs))
      ensures OnlyForeign(t) == t
    {
    }

    /** opkit_shm_reset: the scripts go first, so no entry is left pointing into the reused segment. */
    method ShmReset() returns (ok: bool)
      requires Valid()
      modifies this, shm
      ensures Valid() && loaded == [] && (ok <==> old(shm.segment.Some?))
      ensures functions == OnlyForeign(old(functions)) && constants == OnlyForeign(old(constants))
      ensures functions == Kept(old(functions0), old(registeredF))
      ensures constants == Kept(old(constants0), old(registeredC))
      ensures heap == old(heap) - HeapMems(old(loaded))
      ensures ok ==> shm.segment == Some(old(shm.segment.value).(pos := 0))
    {
      Reset();
      ok := shm.Reset();
    }
  }

  lemma NoNames(files: seq<File>)
    ensures SameNames([], []) && files[..0] == []
    ensures forall funcs: bool :: FileSymbols([], funcs) == [] && Symbols([], funcs) == []
  {
  }

  lemma NextFile(files: seq<File>, k: nat, heap: map<nat, nat>, segment: Option<Segment>)
    requires k < |files| && FilesOk(files, k, heap, segment)
    ensures files[k].total > 0 && FreshAt(files[k].at, files[k].total, heap, segment)
    ensures forall s <- files[k].script.funcs + files[k].script.consts :: s.at < files[k].total
  {
    hide FreshAt;
  }

  lemma FilesStay(files: seq<File>, k: nat, heap: map<nat, nat>, segment: Option<Segment>,
                  heap': map<nat, nat>, segment': Option<Segment>)
    requires k < |files| && FilesOk(files, k, heap, segment)
    requires heap' == heap || (files[k].readOk && heap' == heap[files[k].at := files[k].total])
    requires segment'.Some? == segment.Some?
    requires segment.Some? ==> segment'.value.p == segment.value.p && segment'.value.size == segment.value.size
    ensures FilesOk(files, k + 1, heap', segment')
  {
    forall i: nat | k < i < |files| ensures FreshAt(files[i].at, files[i].total, heap', segment') {
      assert FreshAt(files[i].at, files[i].total, heap, segment);
    }
  }

  /** The names of the files that can be read, file by file. */
  lemma {:induction false} FileNames(files: seq<File>, funcs: bool, n: Name)
    ensures Absent(FileSymbols(files, funcs), n) <==> forall k: nat | k < |files| && files[k].readOk ::
              Absent(if funcs then files[k].script.funcs else files[k].script.consts, n)
  {
    if files != [] {
      var last := |files| - 1;
      var f := files[last];
      FileNames(files[..last], funcs, n);
      AbsentAppend(FileSymbols(files[..last], funcs),
                   if !f.readOk then [] else if funcs then f.script.funcs else f.script.consts, n);
      hide Absent, FileSymbols;
      assert forall k: nat | k < last :: files[..last][k] == files[k];
    }
  }

  lemma KeptNames(t: Table, files: seq<File>)
    ensures forall n: Name :: n in Kept(t, FileSymbols(files, true)) <==>
              n in t && forall k: nat, i: nat | k < |files| && files[k].readOk &&
                i < |files[k].script.funcs| && files[k].script.funcs[i].considered ::
                  files[k].script.funcs[i].name != n
    ensures forall n: Name :: n in Kept(t, FileSymbols(files, false)) <==>
              n in t && forall k: nat, i: nat | k < |files| && files[k].readOk &&
                i < |files[k].script.consts| && files[k].script.consts[i].considered ::
                  files[k].script.consts[i].name != n
  {
    hide FileSymbols;
    forall n: Name, funcs: bool
      ensures Absent(FileSymbols(files, funcs), n) <==> forall k: nat | k < |files| && files[k].readOk ::
                Absent(if funcs then files[k].script.funcs else files[k].script.consts, n)
    {
      FileNames(files, funcs, n);
    }
  }

  lemma FileStep(files: seq<File>, k: nat, funcs: bool)
    requires k < |files|
    ensures FileSymbols(files[..k + 1], funcs)
         == FileSymbols(files[..k], funcs)
          + (if !files[k].readOk then [] else if funcs then files[k].script.funcs else files[k].script.consts)
  {
    assert files[..k + 1][..k] == files[..k];
  }

  lemma ReadNames(files: seq<File>, k: nat, n: Node, nodes: seq<Node>, funcs: bool, names: seq<Symbol>)
    requires k < |files| && files[k].readOk && n.script == At(files[k].script, n.mem)
    requires SameNames(Symbols(nodes, funcs), FileSymbols(files[..k], funcs))
    requires SameNames(names, FileSymbols(files[..k], funcs))
    ensures SameNames(Symbols([n] + nodes, funcs), FileSymbols(files[..k + 1], funcs))
    ensures SameNames(names + Of(n, funcs), FileSymbols(files[..k + 1], funcs))
  {
    hide SameNames, Symbols, FileSymbols;
    var own := if funcs then files[k].script.funcs else files[k].script.consts;
    FileStep(files, k, funcs);
    MovedNames(own, n.mem);
    SymbolsPrepend(n, nodes, funcs);
    SameNamesAppend(Symbols(nodes, funcs), FileSymbols(files[..k], funcs), Of(n, funcs), own);
    SameNamesAppend(names, FileSymbols(files[..k], funcs), Of(n, funcs), own);
  }

  lemma UnreadNames(files: seq<File>, k: nat)
    requires k < |files| && !files[k].readOk
    ensures forall funcs: bool :: FileSymbols(files[..k + 1], funcs) == FileSymbols(files[..k], funcs)
  {
    FileStep(files, k, true);
    FileStep(files, k, false);
  }

  lemma TwiceNamed(a: seq<Symbol>, b: seq<Symbol>, names: seq<Symbol>)
    requires SameNames(a, names) && SameNames(b, names)
    ensures SameNames(a + b, names)
  {
    forall n: Name ensures Absent(a + b, n) <==> Absent(names, n) { AbsentAppend(a, b, n); }
  }

  lemma KeptFrom(t: Table, t0: Table, before: seq<Symbol>, s: seq<Symbol>, names: seq<Symbol>)
    requires OnlyForeign(t) == t == Kept(t0, before) && SameNames(s, names)
    ensures Kept(t0, before + s) == Kept(t, names)
  {
    hide Kept, SameNames, OnlyForeign;
    KeptAppend(t0, before, s);
    SameNamesKeep(t, s, names);
  }

  /** A constant others own is lost once a file defining its name has been loaded and the scripts are reset. */
  method ForeignConstantIsLost(engine: Engine, file: File)
    requires engine.Valid() && engine.loaded == [] && FilesOk([file], 0, engine.heap, engine.shm.segment)
    requires "C" in engine.constants && engine.constants["C"] == Foreign(1)
    requires file.readOk && file.script.consts == [Symbol("C", 0, true)]
    modifies engine, engine.shm
    ensures engine.constants == old(engine.constants) - {"C"}
  {
    var files, symbol := [file], Symbol("C", 0, true);
    assert files[..0] == [] && [symbol][0] == symbol;
    assert FileSymbols(files, false) == [symbol];
    engine.Session(files, false);
  }

  /** An engine and a file of that kind: one foreign constant, gone after the run. */
  method ForeignConstantIsLostOnce() returns (before: Table, after: Table)
    ensures before == map["C" := Foreign(1)] && after == map[]
  {
    before := map["C" := Foreign(1)];
    var shm := new Allocator();
    assert OnlyForeign(before) == before;
    var engine := new Engine(shm, map[], before, map[]);
    ForeignConstantIsLost(engine, File(Script([], [Symbol("C", 0, true)]), 8, true, 4096));
    after := engine.constants;
  }

  lemma NodesKeep(nodes: seq<Node>, heap: map<nat, nat>, segment: Option<Segment>, heap': map<nat, nat>,
                  segment': Option<Segment>)
    requires NodesOk(nodes, heap, segment)
    requires forall a <- heap :: a in heap' && heap'[a] == heap[a]
    requires segment' == segment
          || (segment.Some? && segment'.Some? && segment'.value == segment.value.(pos := segment'.value.pos)
              && segment.value.pos <= segment'.value.pos)
    ensures NodesOk(nodes, heap', segment')
  {
    forall i: nat | i < |nodes| ensures Placed(nodes[i], heap', segment') {
      assert Placed(nodes[i], heap, segment);
    }
  }

  lemma NewNodeFits(n: Node, rest: seq<Node>, heap: map<nat, nat>, segment: Option<Segment>, heap': map<nat, nat>,
                    segment': Option<Segment>)
    requires NodesOk(rest, heap, segment) && NodesOk(rest, heap', segment') && HeapOk(heap, segment)
    requires n.size > 0 && n.mem > 0 && forall s <- n.script.funcs + n.script.consts :: n.mem <= s.at < n.mem + n.size
    requires n.inShm ==> segment.Some? && segment'.Some? && n.mem == segment.value.p + segment.value.pos
                         && segment'.value.p == segment.value.p && segment.value.pos + n.size <= segment'.value.pos
                         && segment.value.pos + n.size <= segment.value.size
    requires !n.inShm ==> FreshAt(n.mem, n.size, heap, segment) && n.mem in heap' && heap'[n.mem] == n.size
                          && (segment.Some? ==> segment.value.pos <= segment.value.size)
    ensures NodesOk([n] + rest, heap', segment')
  {
    var all := [n] + rest;
    forall i: nat | i < |all| ensures Placed(all[i], heap', segment') {
      if i > 0 { assert all[i] == rest[i - 1]; }
    }
    forall j: nat | 0 < j < |all| ensures Disjoint(n.mem, n.size, all[j].mem, all[j].size) {
      assert all[j] == rest[j - 1] && Placed(rest[j - 1], heap, segment);
    }
  }

  lemma LoadOwned(n: Node, rest: seq<Node>, functions: Table, constants: Table)
    requires Owned(functions, Symbols(rest, true)) && Owned(constants, Symbols(rest, false))
    ensures Owned(functions, Symbols([n] + rest, true))
    ensures Owned(Update(constants, n.script.consts), Symbols([n] + rest, false))
  {
    hide Owned, Symbols, Update;
    SymbolsPrepend(n, rest, true);
    SymbolsPrepend(n, rest, false);
    OwnedGrows(functions, Symbols(rest, true), Symbols([n] + rest, true));
    OwnedGrows(constants, Symbols(rest, false), Symbols([n] + rest, false));
    OwnedUpdate(constants, n.script.consts, Symbols([n] + rest, false));
  }

  lemma NoSymbols()
    ensures forall funcs: bool :: Symbols([], funcs) == []
    ensures forall t: Table :: Update(t, []) == t
  {
  }

  lemma RegisterStep(t: Table, nodes: seq<Node>, k: nat, funcs: bool)
    requires k < |nodes|
    ensures Update(t, Symbols(nodes[..k + 1], funcs)) ==
              Update(Update(t, Symbols(nodes[..k], funcs)), Of(nodes[k], funcs))
  {
    SymbolsStep(nodes, k, funcs);
    UpdateAppend(t, Symbols(nodes[..k], funcs), Of(nodes[k], funcs));
  }

  lemma {:induction false} SameSymbols(a: seq<Node>, b: seq<Node>, funcs: bool)
    requires |a| == |b| && forall i | 0 <= i < |a| :: a[i].script == b[i].script
    ensures Symbols(a, funcs) == Symbols(b, funcs)
    decreases a
  {
    if a != [] { SameSymbols(a[..|a| - 1], b[..|b| - 1], funcs); }
  }

  lemma SamePlaces(a: seq<Node>, b: seq<Node>, heap: map<nat, nat>, segment: Option<Segment>)
    requires NodesOk(a, heap, segment) && |a| == |b| && forall i | 0 <= i < |a| :: b[i] == a[i].(executed := true)
    ensures NodesOk(b, heap, segment)
  {
    forall i: nat | i < |b| ensures Placed(b[i], heap, segment) { assert Placed(a[i], heap, segment); }
  }

  lemma ForeignOnly(t: Table)
    ensures forall n: Name :: n in OnlyForeign(t) <==> n in t && t[n].Foreign?
  {
  }

  lemma MemsOf(nodes: seq<Node>)
    ensures forall a: nat :: a in HeapMems(nodes) <==>
              exists i: nat :: i < |nodes| && !nodes[i].inShm && nodes[i].mem == a
  {
  }

  lemma NoHeapMems()
    ensures HeapMems([]) == {}
  {
  }

  /** No heap buffer is freed twice: the next one is still live. */
  lemma StillLive(nodes: seq<Node>, i: nat, heap: map<nat, nat>, segment: Option<Segment>)
    requires NodesOk(nodes, heap, segment) && i < |nodes|
    ensures !nodes[i].inShm ==> nodes[i].mem in heap && nodes[i].mem !in HeapMems(nodes[..i])
    ensures nodes[i].mem != 0
    ensures HeapMems(nodes[..i + 1]) == HeapMems(nodes[..i]) + if nodes[i].inShm then {} else {nodes[i].mem}
  {
    assert Placed(nodes[i], heap, segment);
    forall k: nat | k < i ensures nodes[k].mem != nodes[i].mem {
      assert Placed(nodes[k], heap, segment);
    }
    forall m | m in HeapMems(nodes[..i + 1])
      ensures m in HeapMems(nodes[..i]) || (!nodes[i].inShm && m == nodes[i].mem)
    {
      var k :| 0 <= k < i + 1 && !nodes[..i + 1][k].inShm && m == nodes[..i + 1][k].mem;
      if k < i { assert nodes[..i][k] == nodes[k]; }
    }
    forall m | m in HeapMems(nodes[..i]) ensures m in HeapMems(nodes[..i + 1]) {
      var k :| 0 <= k < i && !nodes[..i][k].inShm && m == nodes[..i][k].mem;
      assert nodes[..i + 1][k] == nodes[k];
    }
    assert nodes[..i + 1][i] == nodes[i];
  }

  lemma ForeignTwice(t: Table)
    ensures OnlyForeign(OnlyForeign(t)) == OnlyForeign(t)
  {
  }

  lemma NothingLeft(functions: Table, constants: Table, heap: map<nat, nat>, gone: set<nat>, segment: Option<Segment>)
    requires HeapOk(heap, segment)
    ensures Owned(OnlyForeign(functions), Symbols([], true)) && Owned(OnlyForeign(constants), Symbols([], false))
    ensures HeapOk(heap - gone, segment) && NodesOk([], heap - gone, segment)
  {
  }
}
