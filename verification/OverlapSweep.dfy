/**
 The memory layout listing of `phpc -i`: blocks are sorted, then a stack of enclosing blocks gives
 each line its indentation and its overlap mark.
 */
module OverlapSweep {

  datatype Block = Block(name: string, start: int, size: nat) {
    function End(): int { start + size }
  }

  datatype Line = Line(block: Block, depth: nat, overlap: bool)

  /** b starts inside a and reaches beyond it: neither holds the other. */
  predicate Crosses(a: Block, b: Block) {
    a.start < b.start < a.End() < b.End()
  }

  predicate Encloses(a: Block, b: Block) {
    a.start <= b.start < a.End() && b.End() <= a.End()
  }

  /** The address belongs to the block. */
  predicate Inside(b: Block, x: int) {
    b.start <= x < b.start + b.size
  }

  /** Address by address: a comes first, they share an address, and b has one that a lacks. */
  ghost predicate Overlap(a: Block, b: Block) {
    a.start < b.start && (exists x :: Inside(a, x) && Inside(b, x)) && exists x :: Inside(b, x) && !Inside(a, x)
  }

  lemma CrossesMeans(a: Block, b: Block)
    ensures Crosses(a, b) <==> Overlap(a, b)
  {
    if Crosses(a, b) {
      assert Inside(a, b.start) && Inside(b, b.start);
      assert Inside(b, a.start + a.size) && !Inside(a, a.start + a.size);
    }
  }

  /** Enclosing: the start of b belongs to a, and so does every address of b. */
  lemma EnclosesMeans(a: Block, b: Block)
    ensures Encloses(a, b) <==> Inside(a, b.start) && forall x :: Inside(b, x) ==> Inside(a, x)
  {
    if Inside(a, b.start) && forall x :: Inside(b, x) ==> Inside(a, x) {
      if b.size > 0 { assert Inside(b, b.start + b.size - 1); }
    }
  }

  // ---------------------------------------------------------------- the order

  /** The comparison given to usort: by start, larger blocks first. */
  predicate Before(a: Block, b: Block) {
    a.start < b.start || (a.start == b.start && a.size >= b.size)
  }

  ghost predicate Sorted(s: seq<Block>) {
    forall i: nat, j: nat | i < j < |s| :: Before(s[i], s[j])
  }

  function Insert(b: Block, s: seq<Block>): seq<Block> {
    if s == [] then [b]
    else if Before(b, s[0]) then [b] + s
    else [s[0]] + Insert(b, s[1..])
  }

  /** usort: any sort will do, only the order and the contents are used. */
  function Sort(s: seq<Block>): seq<Block> {
    if s == [] then [] else Insert(s[0], Sort(s[1..]))
  }

  lemma {:induction false} InsertKeeps(b: Block, s: seq<Block>)
    ensures multiset(Insert(b, s)) == multiset(s) + multiset{b}
    decreases s
  {
    if s != [] {
      assert s == [s[0]] + s[1..];
      if !Before(b, s[0]) { InsertKeeps(b, s[1..]); }
    }
  }

  lemma {:induction false} InsertSorts(b: Block, s: seq<Block>)
    requires Sorted(s)
    ensures Sorted(Insert(b, s))
    decreases s
  {
    if s != [] && !Before(b, s[0]) {
      InsertSorts(b, s[1..]);
      InsertKeeps(b, s[1..]);
      var t := Insert(b, s[1..]);
      forall k: nat | k < |t| ensures Before(s[0], t[k]) {
        assert t[k] in multiset(t);
        if t[k] != b { assert t[k] in s[1..]; }
      }
    }
  }

  lemma {:induction false} SortSorts(s: seq<Block>)
    ensures Sorted(Sort(s)) && multiset(Sort(s)) == multiset(s)
    ensures forall i: nat, j: nat | i < j < |Sort(s)| ::
              Sort(s)[i].start <= Sort(s)[j].start
              && (Sort(s)[i].start == Sort(s)[j].start ==> Sort(s)[i].size >= Sort(s)[j].size)
  {
    if s != [] {
      SortSorts(s[1..]);
      InsertSorts(s[0], Sort(s[1..]));
      InsertKeeps(s[0], Sort(s[1..]));
      assert s == [s[0]] + s[1..];
    }
  }

  lemma SameMembers(s: seq<Block>, t: seq<Block>)
    requires multiset(s) == multiset(t)
    ensures forall b <- s :: b in t
  {
    forall b <- s ensures b in t { assert b in multiset(s); }
  }

  // ---------------------------------------------------------------- the sweep

  ghost predicate Increasing(idx: seq<nat>, k: nat) {
    (forall m: nat | m < |idx| :: idx[m] < k) && forall m: nat, n: nat | m < n < |idx| :: idx[m] < idx[n]
  }

  function Members(idx: seq<nat>): set<nat> {
    set i | i in idx
  }

  lemma {:induction false} MembersCount(idx: seq<nat>, k: nat)
    requires Increasing(idx, k)
    ensures |Members(idx)| == |idx|
  {
    if idx != [] {
      var n := |idx| - 1;
      MembersCount(idx[..n], k);
      assert Members(idx) == Members(idx[..n]) + {idx[n]};
    }
  }

  /** The stack holds blocks of s at the positions idx. */
  ghost predicate Stacked(s: seq<Block>, stack: seq<Block>, idx: seq<nat>, k: nat) {
    && k <= |s| && |stack| == |idx| && Increasing(idx, k)
    && forall m: nat | m < |idx| :: stack[m] == s[idx[m]]
  }

  /** While nothing crossed: every block of s[..k] that ends after p is on the stack, outer ones below. */
  ghost predicate Nested(s: seq<Block>, idx: seq<nat>, k: nat, p: int)
    requires k <= |s| && Increasing(idx, k)
  {
    && (forall i: nat | i < k && s[i].End() > p :: i in idx)
    && (forall m: nat, n: nat | m < n < |idx| :: s[idx[m]].End() >= s[idx[n]].End())
  }

  ghost predicate NoCrossing(s: seq<Block>, k: nat)
    requires k <= |s|
  {
    forall i: nat, j: nat | i < k && j < k :: !Crosses(s[i], s[j])
  }

  /** The blocks before k that enclose block k. */
  function Enclosing(s: seq<Block>, k: nat): set<nat>
    requires k < |s|
  {
    set i: nat | i < k && Encloses(s[i], s[k])
  }

  /** A block that ends after its innermost open block crosses it, because larger blocks come first. */
  lemma MarkIsCrossing(s: seq<Block>, i: nat, k: nat)
    requires Sorted(s) && i < k < |s| && s[k].start < s[i].End() < s[k].End()
    ensures Crosses(s[i], s[k])
  {
    assert Before(s[i], s[k]);
  }

  lemma NoMark(s: seq<Block>, idx: seq<nat>, k: nat)
    requires Sorted(s) && k < |s| && Increasing(idx, k) && Nested(s, idx, k, s[k].start) && NoCrossing(s, k)
    requires idx != [] ==> s[k].start < s[idx[|idx| - 1]].End() && s[k].End() <= s[idx[|idx| - 1]].End()
    ensures NoCrossing(s, k + 1) && Increasing(idx + [k], k + 1)
    ensures Members(idx) == Enclosing(s, k)
    ensures Nested(s, idx + [k], k + 1, s[k].start)
  {
    forall i: nat | i < k ensures i in idx <==> Encloses(s[i], s[k]) {
      assert Before(s[i], s[k]);
      if i in idx {
        var m: nat :| m < |idx| && idx[m] == i;
        assert s[idx[m]].End() >= s[idx[|idx| - 1]].End();
      }
    }
    forall i: nat | i < k ensures !Crosses(s[i], s[k]) && !Crosses(s[k], s[i]) {
      assert Before(s[i], s[k]);
      assert i in idx <==> Encloses(s[i], s[k]);
    }
  }

  predicate Marked(lines: seq<Line>) {
    exists k | 0 <= k < |lines| :: lines[k].overlap
  }

  /** None of the first k lines is marked. */
  ghost predicate Quiet(lines: seq<Line>, k: nat) {
    forall i: nat | i < k && i < |lines| :: !lines[i].overlap
  }

  /** What the printed lines say about the sorted blocks they show. */
  ghost predicate Truthful(s: seq<Block>, lines: seq<Line>) {
    && |lines| <= |s|
    && (forall k: nat | k < |lines| :: lines[k].block == s[k])
    && (forall k: nat | k < |lines| && lines[k].overlap :: exists i: nat :: i < k && Crosses(s[i], s[k]))
    && (forall k: nat | k < |lines| && Quiet(lines, k + 1) :: lines[k].depth == |Enclosing(s, k)|)
    && (!Marked(lines) ==> NoCrossing(s, |lines|))
  }

  lemma MarkedNext(lines: seq<Line>, line: Line)
    ensures Marked(lines + [line]) <==> Marked(lines) || line.overlap
  {
    var after := lines + [line];
    if Marked(lines) {
      var k :| 0 <= k < |lines| && lines[k].overlap;
      assert after[k].overlap;
    }
    if line.overlap { assert after[|lines|].overlap; }
  }

  /** Quiet prefixes do not see the line to come. */
  lemma QuietNext(lines: seq<Line>, line: Line, k: nat)
    requires k <= |lines|
    ensures Quiet(lines + [line], k) <==> Quiet(lines, k)
    ensures Quiet(lines + [line], |lines| + 1) ==> !Marked(lines) && !line.overlap
  {
    var after := lines + [line];
    assert forall i: nat | i < |lines| :: after[i] == lines[i];
    assert after[|lines|] == line;
    forall i: nat | i < k ensures after[i].overlap == lines[i].overlap {}
  }

  lemma NextLine(s: seq<Block>, lines: seq<Line>, line: Line)
    requires |lines| < |s| && Truthful(s, lines) && line.block == s[|lines|]
    requires line.overlap ==> exists i: nat :: i < |lines| && Crosses(s[i], s[|lines|])
    requires !Marked(lines) && !line.overlap ==> line.depth == |Enclosing(s, |lines|)| && NoCrossing(s, |lines| + 1)
    ensures Truthful(s, lines + [line])
    ensures Marked(lines + [line]) <==> Marked(lines) || line.overlap
  {
    hide Enclosing, NoCrossing, Crosses, Marked, Quiet;
    var after, n := lines + [line], |lines|;
    MarkedNext(lines, line);
    forall k: nat | k < |after| && Quiet(after, k + 1) ensures after[k].depth == |Enclosing(s, k)| {
      if k < n {
        QuietNext(lines, line, k + 1);
        assert after[k] == lines[k];
      } else {
        QuietNext(lines, line, n);
      }
    }
    forall k: nat | k < |after| && after[k].overlap ensures exists i: nat :: i < k && Crosses(s[i], s[k]) {
      assert after[k] == if k < n then lines[k] else line;
    }
  }

  lemma FirstLine(s: seq<Block>)
    ensures Truthful(s, []) && !Marked([]) && Nested(s, [], 0, if s == [] then 0 else s[0].start)
  {
  }

  lemma MarkedMeansCrossing(s: seq<Block>, lines: seq<Line>)
    requires Truthful(s, lines) && |lines| == |s|
    ensures Marked(lines) <==> exists a <- s, b <- s :: Crosses(a, b)
  {
    hide Crosses;
    if Marked(lines) {
      var k: nat :| k < |lines| && lines[k].overlap;
      var i: nat :| i < k && Crosses(s[i], s[k]);
      assert s[i] in s && s[k] in s;
    } else {
      forall a <- s, b <- s ensures !Crosses(a, b) {
        var i: nat, j: nat :| i < |s| && j < |s| && s[i] == a && s[j] == b;
      }
    }
  }

  lemma PopKeeps(s: seq<Block>, idx: seq<nat>, k: nat, p: int, nested: bool)
    requires k <= |s| && Increasing(idx, k) && idx != [] && (nested ==> Nested(s, idx, k, p))
    requires s[idx[|idx| - 1]].End() <= p
    ensures Increasing(idx[..|idx| - 1], k) && (nested ==> Nested(s, idx[..|idx| - 1], k, p))
  {
    var n := |idx| - 1;
    assert idx == idx[..n] + [idx[n]];
  }

  /** Pops the blocks that end before the next one starts. */
  method PopClosed(open: seq<Block>, start: int, ghost s: seq<Block>, ghost at: seq<nat>, ghost k: nat,
                   ghost nested: bool)
    returns (stack: seq<Block>, ghost idx: seq<nat>)
    requires Stacked(s, open, at, k) && (nested ==> Nested(s, at, k, start))
    ensures Stacked(s, stack, idx, k) && (nested ==> Nested(s, idx, k, start))
    ensures stack != [] ==> start < stack[|stack| - 1].End()
  {
    hide Nested, Increasing;
    stack, idx := open, at;
    while |stack| > 0 && start >= stack[|stack| - 1].End()
      invariant Stacked(s, stack, idx, k) && (nested ==> Nested(s, idx, k, start))
      decreases |stack|
    {
      PopKeeps(s, idx, k, start, nested);
      stack, idx := stack[..|stack| - 1], idx[..|idx| - 1];
    }
  }

  lemma PushStacked(s: seq<Block>, stack: seq<Block>, idx: seq<nat>, k: nat)
    requires k < |s| && Stacked(s, stack, idx, k)
    ensures Stacked(s, stack + [s[k]], idx + [k], k + 1) && Increasing(idx + [k], k + 1)
  {
  }

  lemma StackTop(s: seq<Block>, stack: seq<Block>, idx: seq<nat>, k: nat)
    requires Stacked(s, stack, idx, k)
    ensures |stack| == |idx| && Increasing(idx, k)
    ensures stack != [] ==> idx[|idx| - 1] < k <= |s| && stack[|stack| - 1] == s[idx[|idx| - 1]]
  {
  }

  /**
   Some line is marked exactly when two of the given blocks cross; a marked block crosses an earlier
   one; and down to the first mark the depth of a line counts the earlier blocks that enclose it.
   */
  method Layout(structure: seq<Block>) returns (lines: seq<Line>, ghost shown: seq<Block>)
    ensures Sorted(shown) && multiset(shown) == multiset(structure)
    ensures |lines| == |structure| && Truthful(shown, lines)
    ensures (exists line <- lines :: line.overlap) <==>
              exists a <- structure, b <- structure :: Overlap(a, b)
    ensures forall k: nat | k < |lines| && forall i: nat | i <= k :: !lines[i].overlap ::
              lines[k].depth == |Around(shown, k)|
    ensures Marked(lines) <==> exists a <- structure, b <- structure :: Crosses(a, b)
  {
    hide Truthful, Nested, Marked, Crosses, Enclosing, NoCrossing, Sorted, Increasing, Stacked, Overlap, Around;
    var s := Sort(structure);
    SortSorts(structure);
    assert |s| == |multiset(s)| == |multiset(structure)| == |structure|;
    lines := [];
    var stack: seq<Block> := [];
    ghost var idx: seq<nat> := [];
    FirstLine(s);
    EmptyStack();
    for k := 0 to |s|
      invariant |lines| == k && Stacked(s, stack, idx, k) && Increasing(idx, k) && Truthful(s, lines)
      invariant !Marked(lines) && k < |s| ==> Nested(s, idx, k, s[k].start)
    {
      var block := s[k];
      stack, idx := PopClosed(stack, block.start, s, idx, k, !Marked(lines));
      StackTop(s, stack, idx, k);
      var depth, overlap := |stack|, false;
      if |stack| > 0 {
        var parent := stack[|stack| - 1];
        if block.End() > parent.End() {
          overlap := true;
          MarkIsCrossing(s, idx[|idx| - 1], k);
        }
      }
      if !Marked(lines) && !overlap {
        QuietMeansNoCrossing(s, lines);
        NoMark(s, idx, k);
        MembersCount(idx, k);
        NextStart(s, idx, k);
      }
      NextLine(s, lines, Line(block, depth, overlap));
      PushStacked(s, stack, idx, k);
      lines := lines + [Line(block, depth, overlap)];
      stack, idx := stack + [block], idx + [k];
    }
    MarkedMeansCrossing(s, lines);
    SameMembers(s, structure);
    SameMembers(structure, s);
    shown := s;
    MarksByAddress(structure, lines);
    DepthsByAddress(s, lines);
  }

  /** The earlier blocks that hold the start of block k and every address of it. */
  ghost function Around(s: seq<Block>, k: nat): set<nat>
    requires k < |s|
  {
    set i: nat | i < k && Inside(s[i], s[k].start) && forall x :: Inside(s[k], x) ==> Inside(s[i], x)
  }

  lemma MarksByAddress(structure: seq<Block>, lines: seq<Line>)
    requires Marked(lines) <==> exists a <- structure, b <- structure :: Crosses(a, b)
    ensures (exists line <- lines :: line.overlap) <==>
              exists a <- structure, b <- structure :: Overlap(a, b)
  {
    hide Crosses, Overlap;
    forall a: Block, b: Block ensures Crosses(a, b) <==> Overlap(a, b) { CrossesMeans(a, b); }
    if Marked(lines) {
      var k :| 0 <= k < |lines| && lines[k].overlap;
      assert lines[k] in lines;
    }
  }

  lemma DepthsByAddress(s: seq<Block>, lines: seq<Line>)
    requires Truthful(s, lines) && |lines| == |s|
    ensures forall k: nat | k < |lines| && forall i: nat | i <= k :: !lines[i].overlap ::
              lines[k].depth == |Around(s, k)|
  {
    hide Encloses, Inside;
    forall k: nat | k < |lines| && forall i: nat | i <= k :: !lines[i].overlap
      ensures lines[k].depth == |Around(s, k)|
    {
      assert Quiet(lines, k + 1);
      forall i: nat | i < k
        ensures Encloses(s[i], s[k]) <==> Inside(s[i], s[k].start) && forall x :: Inside(s[k], x) ==> Inside(s[i], x)
      {
        EnclosesMeans(s[i], s[k]);
      }
      assert Enclosing(s, k) == Around(s, k);
    }
  }

  lemma EmptyStack()
    ensures Increasing([], 0) && forall s: seq<Block> :: Stacked(s, [], [], 0)
  {
  }

  lemma QuietMeansNoCrossing(s: seq<Block>, lines: seq<Line>)
    requires Truthful(s, lines) && !Marked(lines)
    ensures NoCrossing(s, |lines|)
  {
  }

  /** Blocks come by growing start, so the condition carries over to the next one. */
  lemma NextStart(s: seq<Block>, idx: seq<nat>, k: nat)
    requires Sorted(s) && k < |s| && Increasing(idx, k) && Increasing(idx + [k], k + 1)
    requires Nested(s, idx + [k], k + 1, s[k].start)
    ensures k + 1 < |s| ==> Nested(s, idx + [k], k + 1, s[k + 1].start)
  {
    if k + 1 < |s| { assert Before(s[k], s[k + 1]); }
  }
}
