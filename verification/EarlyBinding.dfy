/**
 The list of delayed early bindings: built from the DECLARE_CLASS_DELAYED opcodes before the
 optimizer runs, given its cache slots afterwards by one walk over the opcodes that are left.
 */
module EarlyBinding {
  import opened Wrappers

  type Name = string
  type u32 = x: int | 0 <= x < 0x1_0000_0000

  const UNSET: u32 := 0xFFFF_FFFF

  /** lcname and rtdKey are the two literals of op1, parent the string of op2. */
  datatype Op = DeclareClassDelayed(lcname: Name, rtdKey: Name, parent: Option<Name>, extendedValue: u32)
    | OtherOp(opcode: nat)

  datatype Binding = Binding(lcname: Name, rtdKey: Name, parent: Option<Name>, cacheSlot: u32)

  function Delayed(ops: seq<Op>): seq<Op> {
    if ops == [] then []
    else if ops[|ops| - 1].DeclareClassDelayed? then Delayed(ops[..|ops| - 1]) + [ops[|ops| - 1]]
    else Delayed(ops[..|ops| - 1])
  }

  lemma {:induction false} DelayedOnly(ops: seq<Op>)
    ensures forall op <- Delayed(ops) :: op.DeclareClassDelayed?
  {
    if ops != [] { DelayedOnly(ops[..|ops| - 1]); }
  }

  /** The positions of the delayed opcodes, in order: exactly the DECLARE_CLASS_DELAYED ones. */
  lemma {:induction false} DelayedAt(ops: seq<Op>) returns (idx: seq<nat>)
    ensures |idx| == |Delayed(ops)|
    ensures forall i: nat | i < |idx| :: idx[i] < |ops| && Delayed(ops)[i] == ops[idx[i]]
    ensures forall i: nat, j: nat | i < j < |idx| :: idx[i] < idx[j]
    ensures forall k: nat | k < |ops| :: k in idx <==> ops[k].DeclareClassDelayed?
  {
    DelayedLast(ops);
    hide Delayed;
    idx := [];
    if ops != [] {
      var n := |ops| - 1;
      var before := DelayedAt(ops[..n]);
      idx := if ops[n].DeclareClassDelayed? then before + [n] else before;
      forall i: nat | i < |before| ensures before[i] < n && idx[i] == before[i] {}
      forall k: nat | k < n ensures k in idx <==> ops[k].DeclareClassDelayed? { assert ops[..n][k] == ops[k]; }
      assert n in idx <==> ops[n].DeclareClassDelayed?;
    }
  }

  lemma DelayedLast(ops: seq<Op>)
    ensures ops == [] ==> Delayed(ops) == []
    ensures ops != [] ==> var n := |ops| - 1;
              Delayed(ops) == Delayed(ops[..n]) + if ops[n].DeclareClassDelayed? then [ops[n]] else []
  {
  }

  ghost function OpKeys(ops: seq<Op>): (r: seq<Name>)
    ensures |r| == |Delayed(ops)|
  {
    DelayedOnly(ops);
    seq(|Delayed(ops)|, i requires 0 <= i < |Delayed(ops)|
        && Delayed(ops)[i].DeclareClassDelayed? => Delayed(ops)[i].rtdKey)
  }

  ghost function Keys(bindings: seq<Binding>): (r: seq<Name>)
    ensures |r| == |bindings|
  {
    seq(|bindings|, i requires 0 <= i < |bindings| => bindings[i].rtdKey)
  }

  /** The positions e pick the names of want out of have, in order. */
  ghost predicate Embeds(e: seq<nat>, want: seq<Name>, have: seq<Name>) {
    && |e| == |want|
    && (forall i: nat | i < |e| :: e[i] < |have| && have[e[i]] == want[i])
    && (forall i: nat, j: nat | i < j < |e| :: e[i] < e[j])
  }

  ghost predicate Subsequence(want: seq<Name>, have: seq<Name>) {
    exists e: seq<nat> :: Embeds(e, want, have)
  }

  /** Every embedding of want ends at or after position p. */
  ghost predicate EndsFrom(want: seq<Name>, have: seq<Name>, p: nat) {
    forall e: seq<nat> | Embeds(e, want, have) && e != [] :: p <= e[|e| - 1] + 1
  }

  /** Greedy choice: if no name from position `from` on up to p matches, embeddings of one more name end beyond. */
  lemma Greedy(want: seq<Name>, name: Name, have: seq<Name>, from: nat, p: nat)
    requires EndsFrom(want, have, from) && from <= p <= |have| && (want == [] ==> from == 0)
    requires forall k: nat | from <= k < p :: have[k] != name
    ensures forall e: seq<nat> | Embeds(e, want + [name], have) :: p <= e[|want|]
    ensures EndsFrom(want + [name], have, p + 1)
  {
    forall e: seq<nat> | Embeds(e, want + [name], have) ensures p <= e[|want|] {
      var n := |want|;
      assert Embeds(e[..n], want, have) by {
        forall i: nat | i < n ensures have[e[i]] == want[i] { assert (want + [name])[i] == want[i]; }
      }
      assert have[e[n]] == (want + [name])[n];
      if n > 0 { assert e[..n][n - 1] == e[n - 1]; }
    }
  }

  lemma PrefixEmbeds(e: seq<nat>, want: seq<Name>, have: seq<Name>, n: nat)
    requires Embeds(e, want, have) && n <= |want|
    ensures Embeds(e[..n], want[..n], have)
  {
  }

  lemma ExtendEmbeds(e: seq<nat>, want: seq<Name>, name: Name, have: seq<Name>, p: nat)
    requires Embeds(e, want, have) && p < |have| && have[p] == name && (forall q <- e :: q < p)
    ensures Embeds(e + [p], want + [name], have)
  {
    assert forall i: nat | i < |e| :: e[i] in e;
  }

  /** The longest prefix of want that is a subsequence of have. */
  ghost predicate LongestPrefix(n: nat, want: seq<Name>, have: seq<Name>) {
    n <= |want| && forall q: nat | q <= |want| :: Subsequence(want[..q], have) <==> q <= n
  }

  lemma LongestFrom(pos: seq<nat>, want: seq<Name>, have: seq<Name>)
    requires |pos| <= |want| && Embeds(pos, want[..|pos|], have)
    requires |pos| == |want| || !Subsequence(want[..|pos| + 1], have)
    ensures LongestPrefix(|pos|, want, have)
  {
    forall q: nat | q <= |want| ensures Subsequence(want[..q], have) <==> q <= |pos| {
      if q <= |pos| {
        PrefixEmbeds(pos, want[..|pos|], have, q);
        assert want[..|pos|][..q] == want[..q];
        assert Embeds(pos[..q], want[..q], have);
      } else if Subsequence(want[..q], have) {
        var e: seq<nat> :| Embeds(e, want[..q], have);
        assert want[..q][..|pos| + 1] == want[..|pos| + 1];
        PrefixEmbeds(e, want[..q], have, |pos| + 1);
      }
    }
  }

  lemma DelayedStep(ops: seq<Op>, k: nat)
    requires k < |ops|
    ensures Delayed(ops[..k + 1]) == if ops[k].DeclareClassDelayed? then Delayed(ops[..k]) + [ops[k]]
              else Delayed(ops[..k])
  {
    assert ops[..k + 1][..k] == ops[..k];
  }

  lemma {:induction false} DelayedPrefix(ops: seq<Op>, k: nat)
    requires k <= |ops|
    ensures Delayed(ops[..k]) <= Delayed(ops)
    decreases |ops| - k
  {
    if k < |ops| {
      DelayedStep(ops, k);
      DelayedPrefix(ops, k + 1);
    } else {
      assert ops[..k] == ops;
    }
  }

  /** zend_accel_build_delayed_early_binding_list */
  method Build(flagged: bool, ops: seq<Op>) returns (bindings: array<Binding>)
    ensures fresh(bindings)
    ensures !flagged ==> bindings.Length == 0
    ensures flagged ==> Keys(bindings[..]) == OpKeys(ops)
    ensures flagged ==>
              forall i | 0 <= i < bindings.Length :: var op := Delayed(ops)[i];
                op.DeclareClassDelayed? && bindings[i] == Binding(op.lcname, op.rtdKey, op.parent, 0xFFFF_FFFF)
  {
    var count := 0;
    if flagged {
      for k := 0 to |ops|
        invariant count == |Delayed(ops[..k])|
      {
        DelayedStep(ops, k);
        if ops[k].DeclareClassDelayed? {
          count := count + 1;
        }
      }
      assert ops[..|ops|] == ops;
    }
    bindings := new Binding[count](_ => Binding("", "", None, UNSET));
    if flagged {
      var b := 0;
      for k := 0 to |ops|
        invariant b == |Delayed(ops[..k])| <= bindings.Length
        invariant forall i | 0 <= i < b :: var op := Delayed(ops[..k])[i];
                    op.DeclareClassDelayed? && bindings[i] == Binding(op.lcname, op.rtdKey, op.parent, UNSET)
      {
        DelayedStep(ops, k);
        DelayedPrefix(ops, k + 1);
        if ops[k].DeclareClassDelayed? {
          var op := ops[k];
          bindings[b] := Binding(op.lcname, op.rtdKey, op.parent, UNSET);
          b := b + 1;
        }
      }
      assert ops[..|ops|] == ops;
    }
  }

  /** The bindings after the first |pos| delayed opcodes took those at the positions pos. */
  ghost predicate Given(was: seq<Binding>, now: seq<Binding>, d: seq<Op>, pos: seq<nat>) {
    && |was| == |now| && |pos| <= |d|
    && (forall i: nat | i < |pos| ::
         pos[i] < |was| && d[i].DeclareClassDelayed?
         && now[pos[i]] == was[pos[i]].(cacheSlot := d[i].extendedValue))
    && (forall j: nat | j < |was| && j !in pos :: now[j] == was[j])
  }

  /** Skips the bindings whose opcode was optimized away; the length when the end is reached. */
  method SkipTo(bindings: array<Binding>, from: nat, rtdKey: Name) returns (b: nat)
    requires from < bindings.Length
    ensures from <= b <= bindings.Length
    ensures forall j | from <= j < b :: bindings[j].rtdKey != rtdKey
    ensures b < bindings.Length ==> bindings[b].rtdKey == rtdKey
  {
    b := from;
    while bindings[b].rtdKey != rtdKey
      invariant from <= b < bindings.Length
      invariant forall j | from <= j < b :: bindings[j].rtdKey != rtdKey
      decreases bindings.Length - b
    {
      b := b + 1;
      if b >= bindings.Length {
        return;
      }
    }
  }

  /**
   zend_accel_finalize_delayed_early_binding_list: the longest prefix of the remaining opcodes whose
   keys appear in the list in order gets its cache slots, each in a binding of its own; all other
   bindings are left alone.
   */
  method Finalize(ops: seq<Op>, bindings: array<Binding>) returns (ghost pos: seq<nat>)
    modifies bindings
    ensures LongestPrefix(|pos|, OpKeys(ops), old(Keys(bindings[..])))
    ensures Embeds(pos, OpKeys(ops)[..|pos|], old(Keys(bindings[..])))
    ensures Given(old(bindings[..]), bindings[..], Delayed(ops), pos)
  {
    hide LongestPrefix, Embeds, Delayed, OpKeys, Given, Matched;
    ghost var was, have := bindings[..], Keys(bindings[..]);
    pos := [];
    MatchNothing(ops, have);
    GivenNone(was, Delayed(ops));
    if bindings.Length == 0 {
      MatchFull(pos, ops, 0, have);
      return;
    }
    var b := 0;
    for k := 0 to |ops|
      invariant 0 <= b < bindings.Length && Matched(pos, ops, k, have, b)
      invariant Given(was, bindings[..], Delayed(ops), pos)
      invariant forall j | b <= j < bindings.Length :: bindings[j] == was[j]
    {
      if ops[k].DeclareClassDelayed? {
        ghost var from, now := b, bindings[..];
        b := SkipTo(bindings, b, ops[k].rtdKey);
        if b >= bindings.Length {
          MatchNone(pos, ops, k, have, from);
          return;
        }
        MatchStep(pos, ops, k, have, from, b);
        GivenStep(was, now, Delayed(ops), pos, b);
        bindings[b] := bindings[b].(cacheSlot := ops[k].extendedValue);
        assert bindings[..] == now[b := was[b].(cacheSlot := ops[k].extendedValue)];
        pos := pos + [b];
        b := b + 1;
        if b >= bindings.Length {
          MatchFull(pos, ops, k + 1, have);
          return;
        }
      } else {
        MatchSkip(pos, ops, k, have, b);
      }
    }
    MatchEnd(pos, ops, have, b);
  }

  /** What Finalize says of one opcode: it was served by a binding with its own runtime definition key. */
  lemma ServedByKey(ops: seq<Op>, was: seq<Binding>, now: seq<Binding>, pos: seq<nat>, i: nat)
    requires |pos| <= |OpKeys(ops)| && Embeds(pos, OpKeys(ops)[..|pos|], Keys(was))
    requires Given(was, now, Delayed(ops), pos) && i < |pos|
    ensures i < |Delayed(ops)| && Delayed(ops)[i].DeclareClassDelayed? && pos[i] < |was| == |now|
    ensures was[pos[i]].rtdKey == Delayed(ops)[i].rtdKey
    ensures now[pos[i]] == was[pos[i]].(cacheSlot := Delayed(ops)[i].extendedValue)
  {
  }

  /** The delayed opcodes of ops[..k] took the positions pos, all before b, as early as possible. */
  ghost predicate Matched(pos: seq<nat>, ops: seq<Op>, k: nat, have: seq<Name>, b: nat) {
    && k <= |ops| && |pos| == |Delayed(ops[..k])| <= |OpKeys(ops)|
    && Embeds(pos, OpKeys(ops)[..|pos|], have) && EndsFrom(OpKeys(ops)[..|pos|], have, b)
    && (pos == [] ==> b == 0) && forall p <- pos :: p < b
  }

  lemma MatchNothing(ops: seq<Op>, have: seq<Name>)
    ensures Matched([], ops, 0, have, 0)
  {
    assert ops[..0] == [];
  }

  lemma MatchSkip(pos: seq<nat>, ops: seq<Op>, k: nat, have: seq<Name>, b: nat)
    requires Matched(pos, ops, k, have, b) && k < |ops| && !ops[k].DeclareClassDelayed?
    ensures Matched(pos, ops, k + 1, have, b)
  {
    DelayedStep(ops, k);
  }

  lemma MatchStep(pos: seq<nat>, ops: seq<Op>, k: nat, have: seq<Name>, from: nat, b: nat)
    requires Matched(pos, ops, k, have, from) && k < |ops| && ops[k].DeclareClassDelayed?
    requires from <= b < |have| && have[b] == ops[k].rtdKey && forall j: nat | from <= j < b :: have[j] != ops[k].rtdKey
    ensures b !in pos && |pos| < |Delayed(ops)| && Delayed(ops)[|pos|] == ops[k]
    ensures Matched(pos + [b], ops, k + 1, have, b + 1)
  {
    hide Embeds, EndsFrom, Delayed;
    var want, n := OpKeys(ops), |pos|;
    NextKey(ops, k);
    DelayedStep(ops, k);
    Greedy(want[..n], ops[k].rtdKey, have, from, b);
    ExtendEmbeds(pos, want[..n], ops[k].rtdKey, have, b);
  }

  lemma MatchNone(pos: seq<nat>, ops: seq<Op>, k: nat, have: seq<Name>, from: nat)
    requires Matched(pos, ops, k, have, from) && k < |ops| && ops[k].DeclareClassDelayed?
    requires from <= |have| && forall j: nat | from <= j < |have| :: have[j] != ops[k].rtdKey
    ensures LongestPrefix(|pos|, OpKeys(ops), have) && Embeds(pos, OpKeys(ops)[..|pos|], have)
  {
    hide Embeds, EndsFrom, Delayed, LongestPrefix;
    var want, n := OpKeys(ops), |pos|;
    NextKey(ops, k);
    Greedy(want[..n], ops[k].rtdKey, have, from, |have|);
    NoneLeft(want[..n + 1], have);
    LongestFrom(pos, want, have);
  }

  lemma MatchEnd(pos: seq<nat>, ops: seq<Op>, have: seq<Name>, b: nat)
    requires Matched(pos, ops, |ops|, have, b)
    ensures LongestPrefix(|pos|, OpKeys(ops), have) && Embeds(pos, OpKeys(ops)[..|pos|], have)
  {
    assert ops[..|ops|] == ops;
    LongestFrom(pos, OpKeys(ops), have);
  }

  /** Once the end of the list is reached nothing more can match. */
  lemma MatchFull(pos: seq<nat>, ops: seq<Op>, k: nat, have: seq<Name>)
    requires Matched(pos, ops, k, have, |have|)
    ensures LongestPrefix(|pos|, OpKeys(ops), have) && Embeds(pos, OpKeys(ops)[..|pos|], have)
  {
    var want, n := OpKeys(ops), |pos|;
    if n < |want| {
      Greedy(want[..n], want[n], have, |have|, |have|);
      assert want[..n] + [want[n]] == want[..n + 1];
      NoneLeft(want[..n + 1], have);
    }
    LongestFrom(pos, want, have);
  }

  lemma GivenNone(was: seq<Binding>, d: seq<Op>)
    ensures Given(was, was, d, [])
  {
  }

  lemma GivenStep(was: seq<Binding>, now: seq<Binding>, d: seq<Op>, pos: seq<nat>, b: nat)
    requires Given(was, now, d, pos) && |pos| < |d| && d[|pos|].DeclareClassDelayed?
    requires b < |now| && b !in pos && now[b] == was[b]
    ensures Given(was, now[b := was[b].(cacheSlot := d[|pos|].extendedValue)], d, pos + [b])
  {
    var after, at := now[b := was[b].(cacheSlot := d[|pos|].extendedValue)], pos + [b];
    forall i: nat | i < |at|
      ensures at[i] < |was| && d[i].DeclareClassDelayed? && after[at[i]] == was[at[i]].(cacheSlot := d[i].extendedValue)
    {
      if i < |pos| { assert pos[i] in pos; }
    }
    forall j: nat | j < |was| && j !in at ensures after[j] == was[j] { assert at[|pos|] in at; }
  }

  lemma NextKey(ops: seq<Op>, k: nat)
    requires k < |ops| && ops[k].DeclareClassDelayed?
    ensures var n := |Delayed(ops[..k])|;
            n < |OpKeys(ops)| && OpKeys(ops)[n] == ops[k].rtdKey
              && OpKeys(ops)[..n + 1] == OpKeys(ops)[..n] + [ops[k].rtdKey]
            && Delayed(ops)[n] == ops[k]
  {
    DelayedStep(ops, k);
    DelayedPrefix(ops, k + 1);
    DelayedOnly(ops);
  }

  lemma NoneLeft(want: seq<Name>, have: seq<Name>)
    requires want != [] && forall e: seq<nat> | Embeds(e, want, have) :: |have| <= e[|want| - 1]
    ensures !Subsequence(want, have)
  {
  }

  lemma {:induction false} IncreasingFromZero(e: seq<nat>, i: nat)
    requires i < |e| && forall i: nat, j: nat | i < j < |e| :: e[i] < e[j]
    ensures i <= e[i]
  {
    if i > 0 { IncreasingFromZero(e, i - 1); }
  }

  lemma AllMatch(n: nat, keys: seq<Name>)
    requires LongestPrefix(n, keys, keys)
    ensures n == |keys|
  {
    var id := seq(|keys|, i => i);
    assert keys[..|keys|] == keys && Embeds(id, keys[..|keys|], keys);
    assert Subsequence(keys[..|keys|], keys);
  }

  /** Where the optimizer removed nothing, the only embedding is the identity: everyone gets its own binding. */
  lemma OwnBinding(pos: seq<nat>, keys: seq<Name>)
    requires LongestPrefix(|pos|, keys, keys) && Embeds(pos, keys[..|pos|], keys)
    ensures |pos| == |keys| && forall i: nat | i < |keys| :: pos[i] == i
  {
    hide LongestPrefix;
    AllMatch(|pos|, keys);
    forall i: nat | i < |pos| ensures pos[i] == i {
      IncreasingFromZero(pos, i);
      BelowEnd(pos, |keys|, i);
    }
  }

  lemma {:induction false} BelowEnd(e: seq<nat>, n: nat, i: nat)
    requires i < |e| && (forall i: nat, j: nat | i < j < |e| :: e[i] < e[j]) && forall i: nat | i < |e| :: e[i] < n
    ensures e[i] + (|e| - i) <= n
    decreases |e| - i
  {
    if i + 1 < |e| { BelowEnd(e, n, i + 1); }
  }

  method BuildAndFinalize(ops: seq<Op>) returns (bindings: array<Binding>)
    ensures fresh(bindings) && bindings.Length == |Delayed(ops)|
    ensures forall i | 0 <= i < bindings.Length :: var op := Delayed(ops)[i];
              op.DeclareClassDelayed? && bindings[i] == Binding(op.lcname, op.rtdKey, op.parent, op.extendedValue)
  {
    bindings := Build(true, ops);
    ghost var was := bindings[..];
    ghost var pos := Finalize(ops, bindings);
    OwnBinding(pos, OpKeys(ops));
    forall i | 0 <= i < bindings.Length
      ensures var op := Delayed(ops)[i];
              op.DeclareClassDelayed? && bindings[i] == Binding(op.lcname, op.rtdKey, op.parent, op.extendedValue)
    {
      assert bindings[..][pos[i]] == was[pos[i]].(cacheSlot := Delayed(ops)[i].extendedValue);
    }
  }
}
