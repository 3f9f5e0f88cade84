/** Loading a serialized image at another address, and the round trip. */
module FileLoad {
  import opened ZendGraph
  import opened Arena
  import opened Relocation
  import opened StringPool
  import opened InternedPool
  import opened FileCache

  /** The table of strings known to the process: content to the address of the one string that
      has it. */
  type StringTable = map<seq<byte>, nat>

  /** zend_new_interned_string for a string at addr: an equal string that is already known
      takes precedence. */
  function Known(table: StringTable, text: seq<byte>, addr: nat): StringTable {
    if text in table then table else table[text := addr]
  }

  /** The content of the string that p pointed at. */
  function TextAt(img: Image, p: nat): seq<byte> {
    Content(RawAt(img, p))
  }

  /** The table once the strings of seen have been loaded from the pool behind buf. */
  function TableOf(img: Image, tags: map<nat, nat>, buf: nat, known: StringTable, seen: seq<Slot>): StringTable {
    if seen == [] then known
    else
      var s, before := seen[|seen| - 1], TableOf(img, tags, buf, known, seen[..|seen| - 1]);
      if IsInternedString(img, s) && img.cells[s].p in tags
      then Known(before, TextAt(img, img.cells[s].p), buf + img.size + Untag(tags[img.cells[s].p])) else before
  }

  /** What the slot holds after loading at buf. */
  function Shifted(img: Image, buf: nat, table: StringTable, s: Slot): Zval
    requires s in img.cells
  {
    match img.cells[s]
    case StrV(p) =>
      if IsInternedString(img, s) then (if TextAt(img, p) in table then StrV(table[TextAt(img, p)]) else StrV(0))
      else StrV(buf + Offset(img, p))
    case ArrV(p) => ArrV(buf + Offset(img, p))
    case AstV(p) => AstV(buf + Offset(img, p))
    case Ptr(p) => if IsUninit(img, s) then Ptr(UNINITIALIZED_BUCKET) else Ptr(buf + Offset(img, p))
    case v => v
  }

  /** The file slots of file, with those of seen loaded. */
  function Loaded(img: Image, file: seq<Slot>, buf: nat, table: StringTable, seen: seq<Slot>): map<Slot, Zval> {
    map s | s in img.cells :: if s in seen then Shifted(img, buf, table, s) else Painted(img, file)[s]
  }

  lemma {:induction false} TableGrows(img: Image, tags: map<nat, nat>, buf: nat, known: StringTable, seen: seq<Slot>)
    ensures forall text :: text in known ==>
              text in TableOf(img, tags, buf, known, seen) && TableOf(img, tags, buf, known, seen)[text] == known[text]
    ensures forall s :: s in seen && IsInternedString(img, s) && img.cells[s].p in tags ==>
              TextAt(img, img.cells[s].p) in TableOf(img, tags, buf, known, seen)
  {
    hide RawAt, TextAt;
    if seen != [] {
      TableGrows(img, tags, buf, known, seen[..|seen| - 1]);
      assert forall s :: s in seen <==> s in seen[..|seen| - 1] || s == seen[|seen| - 1];
    }
  }

  lemma LoadedStep(img: Image, file: seq<Slot>, buf: nat, known: StringTable, seen: seq<Slot>, s: Slot)
    requires s in img.cells && s !in seen && forall u :: u in seen ==> u in file
    ensures var tags := PoolOf(img, file).tags;
            var before, after := TableOf(img, tags, buf, known, seen), TableOf(img, tags, buf, known, seen + [s]);
            && Loaded(img, file, buf, after, seen + [s]) ==
                 Loaded(img, file, buf, before, seen)[s := Shifted(img, buf, after, s)]
            && after == if IsInternedString(img, s) && img.cells[s].p in tags
                        then Known(before, TextAt(img, img.cells[s].p),
                                   buf + img.size + Untag(tags[img.cells[s].p])) else before
  {
    hide PoolOf, RawAt, TextAt, Painted, Shifted, IsInternedString;
    var tags := PoolOf(img, file).tags;
    var before, after := TableOf(img, tags, buf, known, seen), TableOf(img, tags, buf, known, seen + [s]);
    assert (seen + [s])[..|seen|] == seen;
    forall u | u in seen && u in img.cells ensures Shifted(img, buf, after, u) == Shifted(img, buf, before, u) {
      SameShifted(img, file, buf, known, seen, u, after);
    }
    hide TableOf;
  }

  /** A slot loaded before keeps its value when the table grows. */
  lemma SameShifted(img: Image, file: seq<Slot>, buf: nat, known: StringTable, seen: seq<Slot>, u: Slot,
                    after: StringTable)
    requires u in seen && u in img.cells && forall v :: v in seen ==> v in file
    requires var before := TableOf(img, PoolOf(img, file).tags, buf, known, seen);
             forall text :: text in before ==> text in after && after[text] == before[text]
    ensures Shifted(img, buf, after, u)
         == Shifted(img, buf, TableOf(img, PoolOf(img, file).tags, buf, known, seen), u)
  {
    hide PoolOf, RawAt, TextAt, TableOf, IsInternedString;
    PoolCovers(img, file);
    TableGrows(img, PoolOf(img, file).tags, buf, known, seen);
  }

  // ---------------------------------------------------------------- strings

  /** The process has a string with the text at the address the table gives for it; held is what lies at
      its string addresses. */
  ghost predicate KnownHeld(known: StringTable, held: map<nat, seq<byte>>) {
    forall text :: text in known ==> known[text] in held && Spells(held[known[text]], text)
  }

  /** Address p leads to a string with the text, byte by byte: the process had it there, or it lies in the
      pool, which starts at address at. */
  ghost predicate HoldsString(held: map<nat, seq<byte>>, strings: seq<byte>, at: nat, text: seq<byte>, p: nat) {
    || (p in held && Spells(held[p], text))
    || (p >= at && TextIn(strings, p - at, text))
  }

  /** Every string of the table is where the table says. */
  ghost predicate HoldsStrings(held: map<nat, seq<byte>>, strings: seq<byte>, at: nat, table: StringTable) {
    forall text :: text in table ==> HoldsString(held, strings, at, text, table[text])
  }

  lemma {:induction false} TableHolds(img: Image, file: seq<Slot>, buf: nat, known: StringTable,
                                      held: map<nat, seq<byte>>, strings: seq<byte>, seen: seq<Slot>)
    requires StringsNonempty(img) && KnownHeld(known, held)
    requires var pool := PoolOf(img, file); EntriesAt(strings, pool.strSize, pool.entries) && |strings| == pool.strSize
    ensures HoldsStrings(held, strings, buf + img.size, TableOf(img, PoolOf(img, file).tags, buf, known, seen))
  {
    hide PoolOf, RawAt, TextAt, EntriesAt, TextIn, Spells;
    if seen == [] {
      forall text | text in known ensures HoldsString(held, strings, buf + img.size, text, known[text]) {}
    } else {
      hide HoldsString;
      var s := seen[|seen| - 1];
      TableHolds(img, file, buf, known, held, strings, seen[..|seen| - 1]);
      if IsInternedString(img, s) && img.cells[s].p in PoolOf(img, file).tags {
        TagHolds(img, file, held, strings, buf + img.size, img.cells[s].p);
      }
    }
  }

  lemma TagHolds(img: Image, file: seq<Slot>, held: map<nat, seq<byte>>, strings: seq<byte>, at: nat, p: nat)
    requires StringsNonempty(img) && p in PoolOf(img, file).tags
    requires var pool := PoolOf(img, file); EntriesAt(strings, pool.strSize, pool.entries) && |strings| == pool.strSize
    ensures HoldsString(held, strings, at, TextAt(img, p), at + Untag(PoolOf(img, file).tags[p]))
  {
    hide PoolOf, RawAt, Untag, Aligned, IsString, Content, Spells, TextIn;
    PoolIndexes(img, file);
    assert TagAt(img, PoolOf(img, file), p);
    hide TagAt;
    var raw, off := RawAt(img, p), Untag(PoolOf(img, file).tags[p]);
    assert IsString(raw) && off + |raw| <= |strings| && strings[off..off + |raw|] == raw;
    hide EntriesAt, StringsNonempty;
    StoredText(strings, off, raw);
  }

  // ---------------------------------------------------------------- a file that can be loaded

  /** file lists what was relocated; it is closed, and the process's strings and the target
      block lie above the image size. */
  ghost predicate Stored(img: Image, header: nat, file: seq<Slot>, buf: nat, known: StringTable) {
    && Loadable(img, header) && AllLive(img, file) && ClosedSlots(img, Marked(file)) && img.size < buf
    && (forall s :: s in file ==> s in img.cells && IsPointer(img.cells[s]))
    && (forall text :: text in known ==> known[text] > img.size)
  }

  lemma {:induction false} TableAbove(img: Image, tags: map<nat, nat>, buf: nat, known: StringTable, seen: seq<Slot>)
    requires img.size < buf && forall text :: text in known ==> known[text] > img.size
    ensures forall text :: text in TableOf(img, tags, buf, known, seen) ==>
              TableOf(img, tags, buf, known, seen)[text] > img.size
  {
    if seen != [] { TableAbove(img, tags, buf, known, seen[..|seen| - 1]); }
  }

  /** Again the pointer value tells which slots have been loaded. */
  lemma GuardIsLoaded(img: Image, header: nat, file: seq<Slot>, buf: nat, known: StringTable, seen: seq<Slot>, s: Slot)
    requires Stored(img, header, file, buf, known) && (forall u :: u in seen ==> u in file) && s in file
    requires IsPointer(img.cells[s]) && !IsUninit(img, s)
    ensures var v := Loaded(img, file, buf, TableOf(img, PoolOf(img, file).tags, buf, known, seen), seen)[s];
            && (v.StrV? || v.ArrV? || v.AstV? || v.Ptr?) && (v.p <= img.size <==> s !in seen) && v.p != 0
            && (v.ArrV? || v.AstV? || v.Ptr? ==> (buf <= v.p <= buf + img.size <==> s in seen))
  {
    RelocatedSmall(img, header, s);
    GuardIsVisited(img, header, file, s);
    PoolCovers(img, file);
    TableGrows(img, PoolOf(img, file).tags, buf, known, seen);
    TableAbove(img, PoolOf(img, file).tags, buf, known, seen);
    hide PoolOf, RawAt, TextAt, TableOf, Loadable, AllLive, ClosedSlots;
  }

  /** In the file, a slot still to be loaded holds the tag of its string or an offset. */
  lemma FileSlot(img: Image, header: nat, file: seq<Slot>, s: Slot)
    requires Loadable(img, header) && AllLive(img, file) && s in file && IsPointer(img.cells[s]) && !IsUninit(img, s)
    ensures var v, w, pool := img.cells[s], Painted(img, file)[s], PoolOf(img, file);
            && (IsInternedString(img, s) ==>
                  v.p in pool.tags && w == StrV(pool.tags[v.p]) && w.p % 2 == 1
                    && Untag(w.p) in pool.entries && pool.entries[Untag(w.p)] == RawAt(img, v.p))
            && (!IsInternedString(img, s) ==>
                  (w.StrV? || w.ArrV? || w.AstV? || w.Ptr?)
                    && w.p == Offset(img, v.p) && w.p + img.base == v.p && w.p % 2 == 0 && w.p in img.objs)
  {
    RelocatedSmall(img, header, s);
    OffsetSmall(img, header, Offset(img, img.cells[s].p));
    ImageStrings(img, header);
    PoolCovers(img, file);
    PoolIndexes(img, file);
    hide PoolOf, RawAt, TextAt, Loadable;
    if IsInternedString(img, s) { assert TagAt(img, PoolOf(img, file), img.cells[s].p); }
  }

  /** Loading one slot: the string found, or the offset moved to buf. */
  lemma ShiftedIs(img: Image, header: nat, file: seq<Slot>, buf: nat, table: StringTable, s: Slot, w: Zval)
    requires Loadable(img, header) && AllLive(img, file) && s in file && IsPointer(img.cells[s]) && !IsUninit(img, s)
    requires var v := Painted(img, file)[s];
             if IsInternedString(img, s) then TextAt(img, img.cells[s].p) in table
               && w == StrV(table[TextAt(img, img.cells[s].p)])
             else match v
               case StrV(p) => w == StrV(buf + p)
               case ArrV(p) => w == ArrV(buf + p)
               case AstV(p) => w == AstV(buf + p)
               case Ptr(p) => w == Ptr(buf + p)
               case _ => false
    ensures Shifted(img, buf, table, s) == w
  {
    FileSlot(img, header, file, s);
    PaintedSort(img, file, s);
    hide Painted, PoolOf, RawAt, TextAt;
  }

  lemma LoadedAt(img: Image, file: seq<Slot>, buf: nat, table: StringTable, seen: seq<Slot>, s: Slot)
    requires s in img.cells
    ensures s in Loaded(img, file, buf, table, seen)
    ensures s !in seen ==> Loaded(img, file, buf, table, seen)[s] == Painted(img, file)[s]
    ensures var v, w := img.cells[s], Loaded(img, file, buf, table, seen)[s];
            && (v.Undef? <==> w.Undef?) && (v.StrV? <==> w.StrV?) && (v.ArrV? <==> w.ArrV?)
            && (v.AstV? <==> w.AstV?) && (v.Ptr? <==> w.Ptr?)
  {
    PaintedSort(img, file, s);
    hide PoolOf, RawAt, TextAt, Painted;
  }

  /** A slot of the file that holds no pointer holds what it always held. */
  lemma PlainStays(img: Image, file: seq<Slot>, buf: nat, table: StringTable, seen: seq<Slot>, s: Slot)
    requires s in img.cells && s !in file && forall u :: u in seen ==> u in file
    ensures Loaded(img, file, buf, table, seen)[s] == img.cells[s]
  {
    hide PoolOf, RawAt, TextAt, Relocated, Shifted;
  }

  class Unserializer {
    const img: Image             // shapes of the block; its slots are read from cells
    ghost const header: nat
    ghost const file: seq<Slot>  // what had been relocated when the file was written
    ghost const known: StringTable
    const buf: nat
    const strings: seq<byte>     // string_pool_base: the pool behind the block
    ghost const pool: Pool
    var cells: map<Slot, Zval>
    var table: StringTable
    ghost var trace: seq<Slot>   // slots loaded so far

    ghost predicate Valid()
      reads this
    {
      && Stored(img, header, file, buf, known) && pool == PoolOf(img, file)
      && EntriesAt(strings, pool.strSize, pool.entries)
      && (forall u :: u in trace ==> u in file)
      && table == TableOf(img, pool.tags, buf, known, trace) && cells == Loaded(img, file, buf, table, trace)
    }

    constructor (image: Image, ghost scriptHeader: nat, ghost written: seq<Slot>, slots: map<Slot, Zval>,
                 bytes: seq<byte>, at: nat, interned: StringTable)
      requires Stored(image, scriptHeader, written, at, interned) && slots == Painted(image, written)
      requires EntriesAt(bytes, PoolOf(image, written).strSize, PoolOf(image, written).entries)
      ensures Valid() && img == image && header == scriptHeader && file == written && known == interned && buf == at
      ensures trace == []
    {
      img, header, file, known, buf, strings, pool := image, scriptHeader,
        written, interned, at, bytes, PoolOf(image, written);
      cells, table, trace := slots, interned, [];
      LoadedNone(image, written, at, interned);
    }

    predicate IsSerialized(p: nat) {
      p <= img.size
    }

    predicate IsUnserialized(p: nat) {
      buf <= p <= buf + img.size
    }

    /** zend_file_cache_unserialize_interned */
    method UnserializeInterned(tag: nat) returns (p: nat)
      requires EntriesAt(strings, pool.strSize, pool.entries) && Untag(tag) in pool.entries
      modifies `table
      ensures var text := Content(pool.entries[Untag(tag)]);
              table == Known(old(table), text, buf + img.size + Untag(tag)) && text in table && p == table[text]
    {
      var raw := StringOfTag(strings, tag, pool.strSize, pool.entries);
      if Content(raw) !in table {
        table := table[Content(raw) := buf + img.size + Untag(tag)];
      }
      p := table[Content(raw)];
    }

    /** The value a file slot stands for at buf. */
    method Decode(v: Zval) returns (w: Zval)
      requires EntriesAt(strings, pool.strSize, pool.entries)
      requires (v.StrV? && v.p % 2 == 1 && Untag(v.p) in pool.entries)
                 || (v.StrV? && v.p % 2 == 0) || v.ArrV? || v.AstV? || v.Ptr?
      modifies `table
      ensures if v.StrV? && v.p % 2 == 1 then
                var text := Content(pool.entries[Untag(v.p)]);
                table == Known(old(table), text, buf + img.size + Untag(v.p)) && text in table && w == StrV(table[text])
              else
                table == old(table) && w == (if v.StrV? then StrV(buf + v.p) else if v.ArrV? then ArrV(buf + v.p)
                                             else if v.AstV? then AstV(buf + v.p) else Ptr(buf + v.p))
    {
      match v {
        case StrV(p) =>
          if p % 2 == 1 {
            var q := UnserializeInterned(p);
            w := StrV(q);
          } else {
            w := StrV(buf + p);
          }
        case ArrV(p) => w := ArrV(buf + p);
        case AstV(p) => w := AstV(buf + p);
        case Ptr(p) => w := Ptr(buf + p);
      }
    }

    /** Overwrite slot s: UNSERIALIZE_PTR, or the string its tag leads to. */
    method Load(s: Slot)
      requires Valid() && s in file && s !in trace && IsPointer(img.cells[s]) && !IsUninit(img, s)
      modifies this
      ensures Valid() && trace == old(trace) + [s] && s in cells && cells[s] == Shifted(img, buf, table, s)
    {
      hide PoolOf, Painted, Shifted, RawAt, Stored, TableOf, Loaded, Known, Dead, EntriesAt, IsString;
      StoredParts(img, header, file, buf, known);
      FileSlot(img, header, file, s);
      PaintedSort(img, file, s);
      LoadedAt(img, file, buf, table, trace, s);
      LoadedStep(img, file, buf, known, trace, s);
      var w := Decode(cells[s]);
      ShiftedIs(img, header, file, buf, table, s, w);
      cells := cells[s := w];
      trace := trace + [s];
    }

    /** UNSERIALIZE_STR, under the test of zend_file_cache_unserialize_zval. */
    method UnserializeStr(s: Slot)
      requires Valid() && InFile(img, file, s) && img.cells[s].StrV?
      modifies this
      ensures Valid() && trace == Visit(img, old(trace), [s])
      ensures forall u :: u in old(trace) ==> u in trace
    {
      hide PoolOf, Painted, Shifted, RawAt, TextAt, Stored, TableOf, Loaded;
      VisitOne(img, trace, s);
      VisitNone(img, trace + [s]);
      LoadedAt(img, file, buf, table, trace, s);
      StoredParts(img, header, file, buf, known);
      LiveTarget(img, header, s);
      if s in file { GuardIsLoaded(img, header, file, buf, known, trace, s); }
      else { PlainStays(img, file, buf, table, trace, s); }
      var p := cells[s].p;
      if IsSerialized(p) || p % 2 == 1 {
        if p != 0 && IsSerialized(p) {
          Load(s);
        }
      }
    }

    /** zend_file_cache_unserialize_zval */
    method UnserializeZval(s: Slot)
      requires Valid() && InFile(img, file, s) && !img.cells[s].Ptr?
      modifies this
      ensures Valid() && trace == Visit(img, old(trace), [s])
      decreases Left(img, trace), 2
    {
      hide PoolOf, Painted, Shifted, RawAt, TextAt, Stored, TableOf, Loaded, EntriesAt, Loadable, AllLive;
      hide PointsRight, Kids;
      StoredParts(img, header, file, buf, known);
      VisitOne(img, trace, s);
      VisitNone(img, trace);
      LiveTarget(img, header, s);
      LoadedAt(img, file, buf, table, trace, s);
      ghost var before := trace;
      if cells[s].StrV? {
        UnserializeStr(s);
      } else if cells[s].ArrV? || cells[s].AstV? {
        GuardIsLoaded(img, header, file, buf, known, trace, s);
        KidsInFile(img, header, file, buf, known, s);
        if !IsUnserialized(cells[s].p) {
          Load(s);
          LeftStep(img, before, s);
          ShiftedTarget(img, header, buf, table, s);
          var off := cells[s].p - buf;
          if cells[s].ArrV? {
            UnserializeHash(off);
          } else {
            UnserializeAst(off + SIZEOF_AST_REF);
          }
        }
      }
    }

    /** zend_file_cache_unserialize_hash: an already loaded data pointer means that the table
        has been walked. */
    method UnserializeHash(head: nat)
      requires Valid() && head in img.objs && img.objs[head].AHeader? && InFile(img, file, ArData(head))
      modifies this
      ensures Valid() && trace == Visit(img, old(trace), [ArData(head)])
      decreases Left(img, trace), 3
    {
      hide PoolOf, Painted, Shifted, RawAt, TextAt, Stored, TableOf, Loaded, EntriesAt, Loadable, AllLive;
      hide PointsRight, Kids;
      ghost var s, before := ArData(head), trace;
      StoredParts(img, header, file, buf, known);
      HeaderTarget(img, header, head);
      VisitOne(img, trace, s);
      VisitNone(img, trace + [s]);
      LoadedAt(img, file, buf, table, trace, s);
      if img.objs[head].uninit {
        UninitLoaded(img, file, buf, known, trace, s);
        cells := cells[ArData(head) := Ptr(UNINITIALIZED_BUCKET)];
        if s !in trace { trace := trace + [s]; }
        return;
      }
      GuardIsLoaded(img, header, file, buf, known, trace, s);
      KidsInFile(img, header, file, buf, known, s);
      if !IsSerialized(cells[ArData(head)].p) {
        return;
      }
      Load(ArData(head));
      LeftStep(img, before, s);
      ShiftedTarget(img, header, buf, table, s);
      UnserializeArea(cells[ArData(head)].p - buf);
    }

    method UnserializeArea(area: nat)
      requires Valid() && area in img.objs && img.objs[area].AArea?
      requires forall u :: u in AreaSlots(img, area, 0) ==> InFile(img, file, u)
      modifies this
      ensures Valid() && trace == Visit(img, old(trace), AreaSlots(img, area, 0))
      decreases Left(img, trace), 4
    {
      hide PoolOf, Painted, Stored, TableOf, Loaded, InFile;
      ghost var start := trace;
      var i := 0;
      while i < img.objs[area].used
        invariant 0 <= i <= img.objs[area].used
        invariant Valid() && start <= trace
        invariant Visit(img, trace, AreaSlots(img, area, i)) == Visit(img, start, AreaSlots(img, area, 0))
      {
        LeftShrinks(img, start, trace);
        VisitAppend(img, trace, ElemSlots(img, area, i), AreaSlots(img, area, i + 1));
        ElemAmongArea(img, area, 0, i);
        UnserializeElement(area, i);
        i := i + 1;
      }
      VisitNone(img, trace);
    }

    method UnserializeElement(area: nat, i: nat)
      requires Valid() && area in img.objs && img.objs[area].AArea? && i < img.objs[area].used
      requires forall u :: u in ElemSlots(img, area, i) ==> InFile(img, file, u)
      modifies this
      ensures Valid() && trace == Visit(img, old(trace), ElemSlots(img, area, i))
      decreases Left(img, trace), 3
    {
      hide PoolOf, Painted, Stored, TableOf, Loaded, InFile, Loadable, PointsRight, RawAt, TextAt, Shifted;
      ghost var start := trace;
      StoredParts(img, header, file, buf, known);
      ElementLive(img, header, area, i);
      LoadedAt(img, file, buf, table, trace, Elem(area, i));
      VisitNone(img, trace);
      if !cells[Elem(area, i)].Undef? {
        assert Elem(area, i) in ElemSlots(img, area, i);
        if !img.objs[area].packed {
          assert Key(area, i) in ElemSlots(img, area, i);
          VisitAppend(img, trace, [Key(area, i)], [Elem(area, i)]);
          UnserializeStr(Key(area, i));
          LeftShrinks(img, start, trace);
        } else {
          assert ElemSlots(img, area, i) == [Elem(area, i)];
        }
        UnserializeZval(Elem(area, i));
      }
    }

    /** zend_file_cache_unserialize_ast for the node at offset node. */
    method UnserializeAst(node: nat)
      requires Valid() && IsNode(img.objs, node)
      requires forall u :: u in NodeSlots(img, node) ==> InFile(img, file, u)
      modifies this
      ensures Valid() && trace == Visit(img, old(trace), NodeSlots(img, node))
      decreases Left(img, trace), 4
    {
      hide PoolOf, Painted, Shifted, RawAt, TextAt, Stored, TableOf, Loaded, EntriesAt, Loadable, AllLive;
      hide PointsRight, Kids;
      hide InFile;
      StoredParts(img, header, file, buf, known);
      NodeTarget(img, header, node);
      match img.objs[node] {
        case AZvalNode(_) =>
          assert NodeVal(node) in NodeSlots(img, node);
          UnserializeZval(NodeVal(node));
        case AInner(_, n) =>
          ghost var start := trace;
          var i := 0;
          while i < n
            invariant 0 <= i <= n
            invariant Valid() && start <= trace
            invariant Visit(img, trace, ChildSlots(node, i, n)) == Visit(img, start, ChildSlots(node, 0, n))
          {
            LeftShrinks(img, start, trace);
            VisitAppend(img, trace, [Child(node, i)], ChildSlots(node, i + 1, n));
            ChildAmong(node, 0, i, n);
            UnserializeChild(node, i);
            i := i + 1;
          }
          VisitNone(img, trace);
      }
    }

    method UnserializeChild(node: nat, i: nat)
      requires Valid() && LiveSlot(img, Child(node, i)) && img.cells[Child(node, i)].Ptr?
      requires InFile(img, file, Child(node, i))
      modifies this
      ensures Valid() && trace == Visit(img, old(trace), [Child(node, i)])
      decreases Left(img, trace), 3
    {
      hide PoolOf, Painted, Shifted, RawAt, TextAt, Stored, TableOf, Loaded, EntriesAt, Loadable, AllLive;
      hide PointsRight, Kids;
      ghost var s, now := Child(node, i), trace;
      StoredParts(img, header, file, buf, known);
      VisitOne(img, trace, s);
      VisitNone(img, trace);
      LoadedAt(img, file, buf, table, trace, s);
      if s in file { GuardIsLoaded(img, header, file, buf, known, trace, s); }
      else { PlainStays(img, file, buf, table, trace, s); }
      if cells[Child(node, i)].p != 0 && !IsUnserialized(cells[Child(node, i)].p) {
        LiveTarget(img, header, s);
        KidsInFile(img, header, file, buf, known, s);
        Load(Child(node, i));
        LeftStep(img, now, s);
        ShiftedTarget(img, header, buf, table, s);
        UnserializeAst(cells[Child(node, i)].p - buf);
      }
    }
  }

  /** A live slot that was relocated if it is a pointer. */
  ghost predicate InFile(img: Image, file: seq<Slot>, s: Slot) {
    LiveSlot(img, s) && (IsPointer(img.cells[s]) <==> s in file)
  }

  lemma KidsInFile(img: Image, header: nat, file: seq<Slot>, buf: nat, known: StringTable, s: Slot)
    requires Stored(img, header, file, buf, known) && s in file
    ensures s in img.cells && forall u :: u in Kids(img, s) ==> InFile(img, file, u)
  {
    hide Loadable, Kids;
    assert s in Marked(file);
    KidsLive(img, header, s);
    forall u | u in Kids(img, s) ensures InFile(img, file, u) {
      if u in img.cells && IsPointer(img.cells[u]) { assert u in Pointers(img, Kids(img, s)); }
    }
  }

  /** The loaded pointer leads, from the new base, to where the old one led. */
  lemma ShiftedTarget(img: Image, header: nat, buf: nat, table: StringTable, s: Slot)
    requires Loadable(img, header) && LiveSlot(img, s) && IsPointer(img.cells[s]) && !IsUninit(img, s)
    requires !img.cells[s].StrV?
    ensures var off := Offset(img, img.cells[s].p); var w := Shifted(img, buf, table, s);
            && (w.ArrV? || w.AstV? || w.Ptr?) && w.p == buf + off
            && (w.ArrV? <==> img.cells[s].ArrV?) && (w.AstV? <==> img.cells[s].AstV?)
            && (img.cells[s].ArrV? ==> Kids(img, s) == [ArData(off)] && ArData(off) in Kids(img, s))
            && (img.cells[s].AstV? ==> Kids(img, s) == NodeSlots(img, off + SIZEOF_AST_REF))
            && (img.cells[s].Ptr? && s.ArData? ==> Kids(img, s) == AreaSlots(img, off, 0))
            && (img.cells[s].Ptr? && s.Child? ==> Kids(img, s) == NodeSlots(img, off))
  {
    hide Loadable, RawAt, TextAt;
  }

  lemma UninitLoaded(img: Image, file: seq<Slot>, buf: nat, known: StringTable, seen: seq<Slot>, s: Slot)
    requires s in img.cells && IsUninit(img, s) && img.cells[s].Ptr? && forall u :: u in seen ==> u in file
    ensures var tags := PoolOf(img, file).tags;
            var before := TableOf(img, tags, buf, known, seen); var seen' := if s in seen then seen else seen + [s];
            && TableOf(img, tags, buf, known, seen') == before && Kids(img, s) == []
            && Loaded(img, file, buf, before, seen)[s := Ptr(UNINITIALIZED_BUCKET)] ==
                 Loaded(img, file, buf, before, seen')
  {
    if s !in seen { LoadedStep(img, file, buf, known, seen, s); }
    hide PoolOf, TableOf, Painted;
  }

  lemma StoredParts(img: Image, header: nat, file: seq<Slot>, buf: nat, known: StringTable)
    requires Stored(img, header, file, buf, known)
    ensures Loadable(img, header) && AllLive(img, file)
    ensures forall s :: s in file ==> LiveSlot(img, s) && IsPointer(img.cells[s])
  {
    hide Loadable;
  }

  lemma LoadedNone(img: Image, file: seq<Slot>, buf: nat, table: StringTable)
    ensures Loaded(img, file, buf, table, []) == Painted(img, file)
  {
    hide PoolOf, Shifted;
  }

  // ---------------------------------------------------------------- the round trip

  /** The slots the passes start from. */
  ghost predicate RootSlots(img: Image, roots: seq<Slot>) {
    forall s :: s in roots ==> LiveSlot(img, s) && !img.cells[s].Ptr?
  }

  /** The table has an address for the bytes of the string between header and NUL. */
  ghost predicate InTable(table: StringTable, raw: seq<byte>) {
    |raw| > STRING_HEADER && raw[STRING_HEADER..|raw| - 1] in table
  }

  /** A loaded slot against the slot it was stored from: every pointer moved by the distance
      of the two blocks, every interned string replaced by the one string with the same bytes from
      the header to the NUL, the shared bucket and everything else as before. */
  ghost predicate RoundTripped(img: Image, buf: nat, table: StringTable, s: Slot, w: Zval)
    requires s in img.cells
  {
    match img.cells[s]
    case StrV(p) =>
      if IsInternedString(img, s) then
        var raw := RawAt(img, p);
        InTable(table, raw) && w == StrV(table[raw[STRING_HEADER..|raw| - 1]])
      else w.StrV? && w.p + img.base == p + buf
    case ArrV(p) => w.ArrV? && w.p + img.base == p + buf
    case AstV(p) => w.AstV? && w.p + img.base == p + buf
    case Ptr(p) => w.Ptr? && if IsUninit(img, s) then w.p == p else w.p + img.base == p + buf
    case v => w == v
  }

  lemma VisitIsFile(img: Image, header: nat, roots: seq<Slot>, buf: nat, known: StringTable)
    requires Loadable(img, header) && RootSlots(img, roots) && img.size < buf
    requires forall text :: text in known ==> known[text] > img.size
    ensures Stored(img, header, Visit(img, [], roots), buf, known)
  {
    hide Loadable;
    VisitIsReachability(img, roots);
    VisitLive(img, header, [], roots);
    VisitPointers(img, [], roots);
  }

  lemma {:induction false} VisitPointers(img: Image, seen: seq<Slot>, work: seq<Slot>)
    requires forall s :: s in seen ==> s in img.cells && IsPointer(img.cells[s])
    ensures forall s :: s in Visit(img, seen, work) ==> s in img.cells && IsPointer(img.cells[s])
    decreases Left(img, seen), |work|
  {
    if work != [] {
      var s := work[0];
      if s !in img.cells || !IsPointer(img.cells[s]) || s in seen {
        VisitPointers(img, seen, work[1..]);
      } else {
        assert s in Left(img, seen) && s !in Left(img, seen + [s]);
        VisitPointers(img, seen + [s], Kids(img, s) + work[1..]);
      }
    }
  }

  /** Loading undoes serializing, up to the move; the address in a string slot holds the old bytes. */
  lemma LoadUndoesStore(img: Image, header: nat, file: seq<Slot>, buf: nat, known: StringTable,
                        held: map<nat, seq<byte>>, strings: seq<byte>, s: Slot)
    requires Stored(img, header, file, buf, known) && KnownHeld(known, held) && s in file
    requires var pool := PoolOf(img, file); EntriesAt(strings, pool.strSize, pool.entries) && |strings| == pool.strSize
    ensures s in img.cells && s in Loaded(img, file, buf, TableOf(img, PoolOf(img, file).tags, buf, known, file), file)
    ensures var table := TableOf(img, PoolOf(img, file).tags, buf, known, file);
            && RoundTripped(img, buf, table, s, Loaded(img, file, buf, table, file)[s])
            && HoldsStrings(held, strings, buf + img.size, table)
  {
    hide PoolOf, TableOf, Painted, RawAt, TextAt, Loadable, AllLive, ClosedSlots, SlotsPresent, LiveSlot, Stored;
    hide EntriesAt, HoldsString, KnownHeld, Content, IsString;
    StoredParts(img, header, file, buf, known);
    LoadableStrings(img, header);
    TableHolds(img, file, buf, known, held, strings, file);
    if IsInternedString(img, s) { InternedText(img, header, s); }
    LiveRight(img, header, s);
    PoolCovers(img, file);
    TableGrows(img, PoolOf(img, file).tags, buf, known, file);
    LoadedSeen(img, file, buf, TableOf(img, PoolOf(img, file).tags, buf, known, file), file, s);
    hide Loaded, Dead;
  }

  lemma InternedText(img: Image, header: nat, s: Slot)
    requires Loadable(img, header) && IsInternedString(img, s)
    ensures var raw := RawAt(img, img.cells[s].p);
            |raw| > STRING_HEADER && TextAt(img, img.cells[s].p) == raw[STRING_HEADER..|raw| - 1]
  {
    assert SlotsPresent(img.objs, img.cells, Offset(img, img.cells[s].p));
    ContentSpells(RawAt(img, img.cells[s].p));
  }

  lemma LoadableStrings(img: Image, header: nat)
    requires Loadable(img, header)
    ensures StringsNonempty(img)
  {
    hide WellFormed;
    ImageStrings(img, header);
  }

  lemma LoadedSeen(img: Image, file: seq<Slot>, buf: nat, table: StringTable, seen: seq<Slot>, s: Slot)
    requires s in img.cells && s in seen
    ensures s in Loaded(img, file, buf, table, seen)
    ensures Loaded(img, file, buf, table, seen)[s] == Shifted(img, buf, table, s)
  {
    hide Painted, Shifted;
  }

  lemma LiveRight(img: Image, header: nat, s: Slot)
    requires Loadable(img, header) && LiveSlot(img, s)
    ensures s in img.cells && PointsRight(img.base, img.objs, s, img.cells[s])
    ensures IsUninit(img, s) && img.cells[s].Ptr? ==> img.cells[s].p == UNINITIALIZED_BUCKET
  {
  }

  /** A script's values stored and loaded again elsewhere: the reachable pointer slots come
      back moved or interned, each relocated once; no other slot changes.  The pool is no larger
      than the block, and every string of the returned table is in it or was known before. */
  method StoreAndLoad(img: Image, ghost header: nat, roots: seq<Slot>, buf: nat, known: StringTable,
                      ghost held: map<nat, seq<byte>>)
    returns (cells: map<Slot, Zval>, table: StringTable, strings: seq<byte>)
    requires Loadable(img, header) && RootSlots(img, roots) && img.size < buf && KnownHeld(known, held)
    requires forall text :: text in known ==> known[text] > img.size
    ensures cells.Keys == img.cells.Keys
    ensures forall s :: s in Visit(img, [], roots) ==> s in img.cells && RoundTripped(img, buf, table, s, cells[s])
    ensures forall s :: s in img.cells && s !in Visit(img, [], roots) ==> cells[s] == img.cells[s]
    ensures forall text :: text in known ==> text in table && table[text] == known[text]
    ensures HoldsStrings(held, strings, buf + img.size, table) && |strings| + header <= img.size
  {
    hide PoolOf, TableOf, Painted, Loadable, AllLive, ClosedSlots, RoundTripped, Loaded, Shifted, Stored, RawAt, InFile;
    hide TextAt, EntriesAt, HoldsStrings, HoldsString, KnownHeld;
    ghost var file := Visit(img, [], roots);
    VisitIsFile(img, header, roots, buf, known);
    StoredParts(img, header, file, buf, known);
    cells, strings := StoreFrom(img, header, roots);
    cells, table := LoadFrom(img, header, roots, cells, strings, buf, known);
    LoadedKeys(img, file, buf, table, file);
    forall s | s in file ensures s in img.cells && RoundTripped(img, buf, table, s, cells[s]) {
      LoadUndoesStore(img, header, file, buf, known, held, strings, s);
    }
    forall s | s in img.cells && s !in file ensures cells[s] == img.cells[s] {
      PlainStays(img, file, buf, table, file, s);
    }
    TableGrows(img, PoolOf(img, file).tags, buf, known, file);
    LoadableStrings(img, header);
    TableHolds(img, file, buf, known, held, strings, file);
    LoadableBelow(img, header, file);
  }

  lemma LoadableBelow(img: Image, header: nat, file: seq<Slot>)
    requires Loadable(img, header) && AllLive(img, file)
    ensures PoolOf(img, file).strSize + header <= img.size
  {
    hide WellFormed, PoolOf;
    PoolBelowImage(img, header, file);
  }

  lemma LoadedKeys(img: Image, file: seq<Slot>, buf: nat, table: StringTable, seen: seq<Slot>)
    ensures Loaded(img, file, buf, table, seen).Keys == img.cells.Keys
  {
    hide Shifted, Painted;
  }

  /** zend_file_cache_serialize over the root values; strings is what the file holds of the pool. */
  method StoreFrom(img: Image, ghost header: nat, roots: seq<Slot>) returns (cells: map<Slot, Zval>, strings: seq<byte>)
    requires Loadable(img, header) && RootSlots(img, roots)
    ensures cells == Painted(img, Visit(img, [], roots))
    ensures var pool := PoolOf(img, Visit(img, [], roots));
            EntriesAt(strings, pool.strSize, pool.entries) && |strings| == pool.strSize
  {
    hide PoolOf, Painted, Loadable, AllLive;
    var script := new Serializer(img, header, img.size + 0x10_0000);
    var i := 0;
    while i < |roots|
      invariant 0 <= i <= |roots| && script.Valid() && script.img == img
      invariant Visit(img, script.trace, roots[i..]) == Visit(img, [], roots)
    {
      assert roots[i..] == [roots[i]] + roots[i + 1..] && roots[i] in roots;
      VisitAppend(img, script.trace, [roots[i]], roots[i + 1..]);
      script.SerializeZval(roots[i]);
      i := i + 1;
    }
    VisitNone(img, script.trace);
    EntriesInUsedPart(script.strings.data, script.strings.strSize, script.strings.entries);
    cells, strings := script.cells, script.strings.data[..script.strings.strSize];
  }

  /** zend_file_cache_unserialize over the root values. */
  method LoadFrom(img: Image, ghost header: nat, roots: seq<Slot>, slots: map<Slot, Zval>, strings: seq<byte>,
                  buf: nat, known: StringTable)
    returns (cells: map<Slot, Zval>, table: StringTable)
    requires Stored(img, header, Visit(img, [], roots), buf, known) && RootSlots(img, roots)
    requires slots == Painted(img, Visit(img, [], roots))
    requires var pool := PoolOf(img, Visit(img, [], roots)); EntriesAt(strings, pool.strSize, pool.entries)
    ensures var file := Visit(img, [], roots);
            table == TableOf(img, PoolOf(img, file).tags, buf, known, file)
              && cells == Loaded(img, file, buf, table, file)
  {
    hide PoolOf, Painted, Loadable, AllLive, TableOf, Loaded, Stored, ClosedSlots, EntriesAt, Visit;
    ghost var file := Visit(img, [], roots);
    VisitIsReachability(img, roots);
    StoredParts(img, header, file, buf, known);
    var script := new Unserializer(img, header, file, slots, strings, buf, known);
    var i := 0;
    assert roots[0..] == roots;
    while i < |roots|
      invariant 0 <= i <= |roots| && script.Valid() && script.img == img && script.file == file
      invariant script.buf == buf && script.known == known
      invariant Visit(img, script.trace, roots[i..]) == file
    {
      assert roots[i..] == [roots[i]] + roots[i + 1..] && roots[i] in roots;
      assert IsPointer(img.cells[roots[i]]) ==> roots[i] in Pointers(img, roots);
      VisitAppend(img, script.trace, [roots[i]], roots[i + 1..]);
      script.UnserializeZval(roots[i]);
      i := i + 1;
    }
    assert roots[i..] == [];
    VisitNone(img, script.trace);
    cells, table := script.cells, script.table;
  }
}
