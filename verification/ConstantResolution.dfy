/**
 opkit_resolve_all_class_constants: nested loops that evaluate constant expressions until a whole
 pass over the linked classes evaluates nothing.  zval_update_constant_ex is a parameter: it may
 fail for any reason that more evaluated class constants cannot create.
 */
module ConstantResolution {

  /** A zval that may hold a constant expression: class constants are shared between classes. */
  datatype Slot = ClassConst(id: nat) | Default(id: nat) | Static(id: nat)

  type Evaluator = (Slot, set<Slot>) -> bool

  /** statics are the class's own static members, without its parent's. */
  datatype Class = Class(internal: bool, linked: bool, traitKind: bool,
                         constants: seq<Slot>, defaults: seq<Slot>, statics: seq<Slot>)
  {
    function Slots(): seq<Slot> { constants + defaults + statics }

    ghost predicate Sorted() {
      && (forall s <- constants :: s.ClassConst?)
      && (forall s <- defaults :: s.Default?)
      && (forall s <- statics :: s.Static?)
    }
  }

  function Constants(s: set<Slot>): set<Slot> {
    set c | c in s && c.ClassConst?
  }

  /** Success depends on the evaluated class constants only, and more of them never hurt. */
  ghost predicate Monotone(can: Evaluator) {
    forall s: Slot, a: set<Slot>, b: set<Slot> | Constants(a) <= Constants(b) && can(s, a) :: can(s, b)
  }

  /** The reverse walk stops at the last internal class of the table. */
  ghost predicate Visited(t: seq<Class>, i: nat) {
    i < |t| && forall j: nat | i <= j < |t| :: !t[j].internal
  }

  ghost predicate InScope(t: seq<Class>, i: nat) {
    Visited(t, i) && t[i].linked && !t[i].traitKind
  }

  /** Nothing in scope that could be evaluated is missing from r. */
  ghost predicate Saturated(t: seq<Class>, can: Evaluator, r: set<Slot>) {
    forall i: nat | InScope(t, i) :: Settled(t[i], can, r)
  }

  ghost predicate Settled(c: Class, can: Evaluator, r: set<Slot>) {
    forall s <- c.Slots() :: s in r || !can(s, r)
  }

  /** r lies inside every saturated set that holds start. */
  ghost predicate Forced(t: seq<Class>, can: Evaluator, start: set<Slot>, r: set<Slot>) {
    forall m: set<Slot> | start <= m && Saturated(t, can, m) :: r <= m
  }

  lemma ForcedStep(t: seq<Class>, can: Evaluator, start: set<Slot>, r: set<Slot>, i: nat, s: Slot)
    requires Monotone(can) && Forced(t, can, start, r) && InScope(t, i) && s in t[i].Slots() && can(s, r)
    ensures Forced(t, can, start, r + {s})
  {
    forall m: set<Slot> | start <= m && Saturated(t, can, m) ensures r + {s} <= m {
      assert r <= m && Constants(r) <= Constants(m);
      assert Settled(t[i], can, m);
    }
  }

  lemma ForcedTrans(t: seq<Class>, can: Evaluator, a: set<Slot>, b: set<Slot>, c: set<Slot>)
    requires a <= b && Forced(t, can, a, b) && Forced(t, can, b, c)
    ensures Forced(t, can, a, c)
  {
  }

  lemma StuckStays(slots: seq<Slot>, can: Evaluator, r: set<Slot>, m: set<Slot>)
    requires Monotone(can) && r <= m && Constants(r) == Constants(m)
    requires forall s <- slots :: s in r || !can(s, r)
    ensures forall s <- slots :: s in m || !can(s, m)
  {
    forall s <- slots ensures s in m || !can(s, m) {
      if can(s, m) { assert can(s, r); }
    }
  }

  /** What was settled stays settled while no class constant is evaluated. */
  lemma SettledStays(c: Class, can: Evaluator, r: set<Slot>, m: set<Slot>)
    requires Monotone(can) && Settled(c, can, r) && r <= m && Constants(r) == Constants(m)
    ensures Settled(c, can, m)
  {
    StuckStays(c.Slots(), can, r, m);
  }

  ghost function AllConstants(t: seq<Class>): set<Slot> {
    set i: nat, k: nat | i < |t| && k < |t[i].constants| :: t[i].constants[k]
  }

  lemma ConstantGained(t: seq<Class>, i: nat, before: set<Slot>, after: set<Slot>)
    requires i < |t| && before <= after && Constants(before) != Constants(after)
    requires forall s <- after :: s in before || s in t[i].constants
    ensures AllConstants(t) - after < AllConstants(t) - before
  {
    var c :| c in Constants(after) && c !in Constants(before);
    var k: nat :| k < |t[i].constants| && t[i].constants[k] == c;
    assert c in AllConstants(t) - before;
  }

  /** A flag says that nothing is left to evaluate: in the class, its defaults, its statics. */
  ghost predicate FlagHolds(c: Class, updated: bool, astDefaults: bool, astStatics: bool, r: set<Slot>) {
    && (updated ==> forall s <- c.Slots() :: s in r)
    && (!astDefaults ==> forall s <- c.defaults :: s in r)
    && (!astStatics ==> forall s <- c.statics :: s in r)
  }

  ghost predicate FlagsHold(t: seq<Class>, updated: seq<bool>, astDefaults: seq<bool>, astStatics: seq<bool>,
                            r: set<Slot>)
    requires |updated| == |astDefaults| == |astStatics| == |t|
  {
    forall i: nat | i < |t| :: FlagHolds(t[i], updated[i], astDefaults[i], astStatics[i], r)
  }

  lemma FlagsGrow(t: seq<Class>, updated: seq<bool>, astDefaults: seq<bool>, astStatics: seq<bool>, r: set<Slot>,
                  m: set<Slot>)
    requires |updated| == |astDefaults| == |astStatics| == |t| && r <= m
    requires FlagsHold(t, updated, astDefaults, astStatics, r)
    ensures FlagsHold(t, updated, astDefaults, astStatics, m)
  {
    forall i: nat | i < |t| ensures FlagHolds(t[i], updated[i], astDefaults[i], astStatics[i], m) {
      assert FlagHolds(t[i], updated[i], astDefaults[i], astStatics[i], r);
    }
  }

  /** Flags of class i may change when they hold. */
  lemma FlagsChange(t: seq<Class>, updated: seq<bool>, astDefaults: seq<bool>, astStatics: seq<bool>, r: set<Slot>,
                    i: nat, u: bool, d: bool, s: bool)
    requires |updated| == |astDefaults| == |astStatics| == |t| && i < |t|
    requires FlagsHold(t, updated, astDefaults, astStatics, r) && FlagHolds(t[i], u, d, s, r)
    ensures FlagsHold(t, updated[i := u], astDefaults[i := d], astStatics[i := s], r)
  {
    hide FlagHolds;
  }

  lemma FlagAt(t: seq<Class>, updated: seq<bool>, astDefaults: seq<bool>, astStatics: seq<bool>, r: set<Slot>, i: nat)
    requires |updated| == |astDefaults| == |astStatics| == |t| && i < |t|
    requires FlagsHold(t, updated, astDefaults, astStatics, r)
    ensures FlagHolds(t[i], updated[i], astDefaults[i], astStatics[i], r)
  {
  }

  lemma DefaultsDone(t: seq<Class>, updated: seq<bool>, astDefaults: seq<bool>, astStatics: seq<bool>, r: set<Slot>,
                     m: set<Slot>,
                     i: nat, ok: bool)
    requires |updated| == |astDefaults| == |astStatics| == |t| && i < |t| && r <= m
    requires FlagsHold(t, updated, astDefaults, astStatics, r) && (ok ==> forall s <- t[i].defaults :: s in m)
    ensures FlagsHold(t, updated, astDefaults, astStatics, m)
    ensures ok ==> FlagsHold(t, updated, astDefaults[i := false], astStatics, m)
  {
    hide FlagsHold;
    FlagsGrow(t, updated, astDefaults, astStatics, r, m);
    FlagAt(t, updated, astDefaults, astStatics, m, i);
    if ok {
      FlagsChange(t, updated, astDefaults, astStatics, m, i, updated[i], false, astStatics[i]);
      assert updated[i := updated[i]] == updated && astStatics[i := astStatics[i]] == astStatics;
    }
  }

  lemma StaticsDone(t: seq<Class>, updated: seq<bool>, astDefaults: seq<bool>, astStatics: seq<bool>, r: set<Slot>,
                    m: set<Slot>,
                    i: nat, ok: bool)
    requires |updated| == |astDefaults| == |astStatics| == |t| && i < |t| && r <= m
    requires FlagsHold(t, updated, astDefaults, astStatics, r) && (ok ==> forall s <- t[i].statics :: s in m)
    ensures FlagsHold(t, updated, astDefaults, astStatics, m)
    ensures ok ==> FlagsHold(t, updated, astDefaults, astStatics[i := false], m)
  {
    hide FlagsHold;
    FlagsGrow(t, updated, astDefaults, astStatics, r, m);
    FlagAt(t, updated, astDefaults, astStatics, m, i);
    if ok {
      FlagsChange(t, updated, astDefaults, astStatics, m, i, updated[i], astDefaults[i], false);
      assert updated[i := updated[i]] == updated && astDefaults[i := astDefaults[i]] == astDefaults;
    }
  }

  class Resolution {
    const classes: seq<Class>
    const can: Evaluator
    /** The slots that no longer hold IS_CONSTANT_AST. */
    var resolved: set<Slot>
    /** ZEND_ACC_CONSTANTS_UPDATED */
    var updated: seq<bool>
    /** ZEND_ACC_HAS_AST_PROPERTIES and ZEND_ACC_HAS_AST_STATICS */
    var astDefaults: seq<bool>
    var astStatics: seq<bool>

    ghost predicate Valid()
      reads this
    {
      && Monotone(can)
      && |updated| == |astDefaults| == |astStatics| == |classes|
      && (forall i: nat | i < |classes| :: classes[i].Sorted())
      && FlagsHold(classes, updated, astDefaults, astStatics, resolved)
    }

    constructor (classes: seq<Class>, can: Evaluator, resolved: set<Slot>, updated: seq<bool>,
                 astDefaults: seq<bool>, astStatics: seq<bool>)
      ensures this.classes == classes && this.can == can && this.resolved == resolved && this.updated == updated
      ensures this.astDefaults == astDefaults && this.astStatics == astStatics
    {
      this.classes, this.can, this.resolved, this.updated := classes, can, resolved, updated;
      this.astDefaults, this.astStatics := astDefaults, astStatics;
    }

    /** zval_update_constant_ex */
    method Update(s: Slot) returns (ok: bool)
      modifies this`resolved
      ensures ok == can(s, old(resolved))
      ensures resolved == if ok then old(resolved) + {s} else old(resolved)
    {
      ok := can(s, resolved);
      if ok {
        resolved := resolved + {s};
      }
    }

    /** One walk over the class constants of class i. */
    method ResolveConstants(i: nat) returns (ok: bool, changed: bool)
      requires Valid() && InScope(classes, i)
      modifies this`resolved
      ensures Valid()
      ensures old(resolved) <= resolved && Forced(classes, can, old(resolved), resolved)
      ensures forall s <- resolved :: s in old(resolved) || s in classes[i].constants
      ensures ok ==> forall s <- classes[i].constants :: s in resolved
      ensures changed <==> Constants(resolved) != Constants(old(resolved))
      ensures !changed ==>
                resolved == old(resolved) && forall s <- classes[i].constants :: s in resolved || !can(s, resolved)
    {
      hide FlagsHold;
      ok, changed := true, false;
      var c := classes[i].constants;
      for k := 0 to |c|
        invariant old(resolved) <= resolved && Forced(classes, can, old(resolved), resolved)
        invariant forall s <- resolved :: s in old(resolved) || s in c
        invariant ok ==> forall j | 0 <= j < k :: c[j] in resolved
        invariant changed <==> Constants(resolved) != Constants(old(resolved))
        invariant !changed ==>
                    resolved == old(resolved) && forall j | 0 <= j < k :: c[j] in resolved || !can(c[j], resolved)
      {
        if c[k] !in resolved {
          ghost var before := resolved;
          assert c[k] in classes[i].Slots();
          var one := Update(c[k]);
          if one {
            ForcedStep(classes, can, old(resolved), before, i, c[k]);
            assert c[k] in Constants(resolved);
            changed := true;
          } else {
            ok := false;
          }
        }
      }
      FlagsGrow(classes, updated, astDefaults, astStatics, old(resolved), resolved);
    }

    /** One walk over the default properties of class i. */
    method ResolveDefaults(i: nat) returns (ok: bool)
      requires Valid() && InScope(classes, i)
      modifies this`resolved, this`astDefaults
      ensures Valid()
      ensures astDefaults == if classes[i].defaults != [] && ok then old(astDefaults)[i := false] else old(astDefaults)
      ensures old(resolved) <= resolved && Forced(classes, can, old(resolved), resolved)
      ensures Constants(resolved) == Constants(old(resolved))
      ensures ok ==> forall s <- classes[i].defaults :: s in resolved
      ensures forall s <- classes[i].defaults :: s in resolved || !can(s, resolved)
    {
      hide FlagsHold;
      ok := true;
      var d := classes[i].defaults;
      ForcedSelf(classes, can, resolved);
      if d == [] {
        return;
      }
      for k := 0 to |d|
        invariant astDefaults == old(astDefaults)
        invariant old(resolved) <= resolved && Forced(classes, can, old(resolved), resolved)
        invariant Constants(resolved) == Constants(old(resolved))
        invariant ok ==> forall j | 0 <= j < k :: d[j] in resolved
        invariant forall j | 0 <= j < k :: d[j] in resolved || !can(d[j], resolved)
      {
        if d[k] !in resolved {
          ghost var before := resolved;
          assert d[k] in classes[i].Slots();
          var one := Update(d[k]);
          if one {
            ForcedStep(classes, can, old(resolved), before, i, d[k]);
            assert Constants(resolved) == Constants(before);
          } else {
            ok := false;
          }
        }
      }
      DefaultsDone(classes, updated, astDefaults, astStatics, old(resolved), resolved, i, ok);
      if ok {
        astDefaults := astDefaults[i := false];
      }
    }

    /** One walk over the static members of class i, from the last one back. */
    method ResolveStatics(i: nat) returns (ok: bool)
      requires Valid() && InScope(classes, i)
      modifies this`resolved, this`astStatics
      ensures Valid()
      ensures astStatics == if classes[i].statics != [] && ok then old(astStatics)[i := false] else old(astStatics)
      ensures old(resolved) <= resolved && Forced(classes, can, old(resolved), resolved)
      ensures Constants(resolved) == Constants(old(resolved))
      ensures ok ==> forall s <- classes[i].statics :: s in resolved
      ensures forall s <- classes[i].statics :: s in resolved || !can(s, resolved)
    {
      hide FlagsHold;
      ok := true;
      var v := classes[i].statics;
      ForcedSelf(classes, can, resolved);
      if v == [] {
        return;
      }
      var count := |v|;
      while count > 0
        invariant 0 <= count <= |v| && astStatics == old(astStatics)
        invariant old(resolved) <= resolved && Forced(classes, can, old(resolved), resolved)
        invariant Constants(resolved) == Constants(old(resolved))
        invariant ok ==> forall j | count <= j < |v| :: v[j] in resolved
        invariant forall j | count <= j < |v| :: v[j] in resolved || !can(v[j], resolved)
      {
        count := count - 1;
        if v[count] !in resolved {
          ghost var before := resolved;
          assert v[count] in classes[i].Slots();
          var one := Update(v[count]);
          if one {
            ForcedStep(classes, can, old(resolved), before, i, v[count]);
            assert Constants(resolved) == Constants(before);
          } else {
            ok := false;
          }
        }
      }
      StaticsDone(classes, updated, astDefaults, astStatics, old(resolved), resolved, i, ok);
      if ok {
        astStatics := astStatics[i := false];
      }
    }

    /** The body of the do-while of opkit_try_resolve_class_constants. */
    method ResolveRound(i: nat) returns (ok: bool, changed: bool)
      requires Valid() && InScope(classes, i)
      modifies this`resolved, this`astDefaults, this`astStatics
      ensures Valid()
      ensures old(resolved) <= resolved && Forced(classes, can, old(resolved), resolved)
      ensures ok ==> forall s <- classes[i].Slots() :: s in resolved
      ensures changed <==> Constants(resolved) != Constants(old(resolved))
      ensures changed ==> AllConstants(classes) - resolved < AllConstants(classes) - old(resolved)
      ensures !changed ==> Settled(classes[i], can, resolved)
    {
      hide Forced, Monotone, Constants, AllConstants, FlagsHold;
      ghost var r0 := resolved;
      ok, changed := ResolveConstants(i);
      ghost var r1 := resolved;
      if changed {
        ConstantGained(classes, i, r0, r1);
      }
      var d := ResolveDefaults(i);
      ghost var r2 := resolved;
      var s := ResolveStatics(i);
      ForcedTrans(classes, can, r0, r1, r2);
      ForcedTrans(classes, can, r0, r2, resolved);
      if !changed {
        StuckStays(classes[i].constants, can, r1, resolved);
        StuckStays(classes[i].defaults, can, r2, resolved);
      }
      ok := ok && d && s;
    }

    /** opkit_try_resolve_class_constants */
    method TryResolve(i: nat) returns (progress: bool)
      requires Valid() && InScope(classes, i)
      modifies this
      ensures Valid()
      ensures old(resolved) <= resolved && Forced(classes, can, old(resolved), resolved)
      ensures updated == old(updated) || updated == old(updated)[i := true]
      ensures !progress ==>
                updated == old(updated) && Constants(resolved) == Constants(old(resolved))
                && Settled(classes[i], can, resolved)
      ensures progress ==> updated[i] || AllConstants(classes) - resolved < AllConstants(classes) - old(resolved)
    {
      hide Forced, Settled, FlagsHold;
      ghost var start := resolved;
      ForcedSelf(classes, can, start);
      var ok, changed, wasChanged := false, true, false;
      while changed && !ok
        invariant Valid() && updated == old(updated)
        invariant start <= resolved && Forced(classes, can, start, resolved)
        invariant !wasChanged ==> Constants(resolved) == Constants(start)
        invariant wasChanged ==> AllConstants(classes) - resolved < AllConstants(classes) - start
        invariant ok ==> forall s <- classes[i].Slots() :: s in resolved
        invariant !changed ==> Settled(classes[i], can, resolved)
        decreases AllConstants(classes) - resolved, changed
      {
        ghost var before := resolved;
        ok, changed := ResolveRound(i);
        ForcedTrans(classes, can, start, before, resolved);
        wasChanged := wasChanged || changed;
      }
      if ok {
        FlagAt(classes, updated, astDefaults, astStatics, resolved, i);
        FlagsChange(classes, updated, astDefaults, astStatics, resolved, i, true, astDefaults[i], astStatics[i]);
        assert astDefaults[i := astDefaults[i]] == astDefaults && astStatics[i := astStatics[i]] == astStatics;
        updated := updated[i := true];
      }
      progress := ok || wasChanged;
    }

    /** The walk over the class table of one round of the outer loop. */
    method ResolvePass() returns (changed: bool)
      requires Valid()
      modifies this
      ensures Valid()
      ensures old(resolved) <= resolved && Forced(classes, can, old(resolved), resolved)
      ensures Left(updated) <= Left(old(updated))
      ensures AllConstants(classes) - resolved <= AllConstants(classes) - old(resolved)
      ensures changed ==>
                Left(updated) < Left(old(updated))
                || AllConstants(classes) - resolved < AllConstants(classes) - old(resolved)
      ensures !changed ==> Saturated(classes, can, resolved)
    {
      hide Forced, Settled, Monotone;
      ghost var start, flags := resolved, updated;
      ForcedSelf(classes, can, start);
      changed := false;
      var i := |classes|;
      while i > 0
        invariant 0 <= i <= |classes| && Valid()
        invariant forall j: nat | i <= j < |classes| :: !classes[j].internal
        invariant start <= resolved && Forced(classes, can, start, resolved)
        invariant Left(updated) <= Left(flags)
        invariant changed ==>
                    Left(updated) < Left(flags) || AllConstants(classes) - resolved < AllConstants(classes) - start
        invariant !changed ==> forall j: nat | i <= j && InScope(classes, j) :: Settled(classes[j], can, resolved)
      {
        var c := classes[i - 1];
        if c.internal {
          break;
        }
        i := i - 1;
        if c.linked && !updated[i] && !c.traitKind {
          ghost var before, was := resolved, updated;
          var one := TryResolve(i);
          ForcedTrans(classes, can, start, before, resolved);
          LeftShrinks(was, updated, i);
          if one {
            changed := true;
          } else if !changed {
            forall j: nat | i <= j && InScope(classes, j) ensures Settled(classes[j], can, resolved) {
              if j != i { SettledStays(classes[j], can, before, resolved); }
            }
          }
        } else if updated[i] {
          UpdatedIsSettled(i);
        }
      }
    }

    lemma UpdatedIsSettled(i: nat)
      requires Valid() && i < |classes| && updated[i]
      ensures Settled(classes[i], can, resolved)
    {
      FlagAt(classes, updated, astDefaults, astStatics, resolved, i);
    }

    /** opkit_resolve_all_class_constants */
    method ResolveAll()
      requires Valid()
      modifies this
      ensures Valid()
      ensures old(resolved) <= resolved && Saturated(classes, can, resolved)
      ensures Forced(classes, can, old(resolved), resolved)
      ensures forall i: nat | Reached(classes, i) :: var c := classes[i];
                && (forall s <- c.constants :: s in resolved || !can(s, resolved))
                && (forall s <- c.defaults :: s in resolved || !can(s, resolved))
                && (forall s <- c.statics :: s in resolved || !can(s, resolved))
      ensures forall s <- resolved - old(resolved) :: exists i: nat ::
                && Reached(classes, i)
                && (s in classes[i].constants || s in classes[i].defaults || s in classes[i].statics)
      ensures forall i: nat | i < |classes| :: var c := classes[i];
                && (updated[i] ==> (forall s <- c.constants :: s in resolved)
                                   && (forall s <- c.defaults :: s in resolved)
                                   && (forall s <- c.statics :: s in resolved))
                && (!astDefaults[i] ==> forall s <- c.defaults :: s in resolved)
                && (!astStatics[i] ==> forall s <- c.statics :: s in resolved)
    {
      hide Forced, Saturated;
      ghost var start := resolved;
      ForcedSelf(classes, can, start);
      var changed := true;
      while changed
        invariant Valid()
        invariant start <= resolved && Forced(classes, can, start, resolved)
        invariant !changed ==> Saturated(classes, can, resolved)
        decreases Left(updated), AllConstants(classes) - resolved, changed
      {
        ghost var before := resolved;
        changed := ResolvePass();
        ForcedTrans(classes, can, start, before, resolved);
      }
      SaturatedLists(classes, can, resolved);
      ForcedLists(classes, can, start, resolved);
      FlagLists(classes, updated, astDefaults, astStatics, resolved);
    }
  }

  /** The reverse walk reaches class i, which is linked and no trait. */
  ghost predicate Reached(t: seq<Class>, i: nat) {
    && i < |t| && t[i].linked && !t[i].traitKind
    && forall j: nat | i <= j < |t| :: !t[j].internal
  }

  /** Saturation, list by list. */
  lemma SaturatedLists(t: seq<Class>, can: Evaluator, r: set<Slot>)
    requires Saturated(t, can, r)
    ensures forall i: nat | Reached(t, i) :: var c := t[i];
              && (forall s <- c.constants :: s in r || !can(s, r))
              && (forall s <- c.defaults :: s in r || !can(s, r))
              && (forall s <- c.statics :: s in r || !can(s, r))
  {
    forall i: nat | Reached(t, i) ensures Settled(t[i], can, r) { assert InScope(t, i); }
  }

  /** What was evaluated is in a list of a class that was reached. */
  lemma ForcedLists(t: seq<Class>, can: Evaluator, start: set<Slot>, r: set<Slot>)
    requires Forced(t, can, start, r)
    ensures forall s <- r - start :: exists i: nat ::
              Reached(t, i) && (s in t[i].constants || s in t[i].defaults || s in t[i].statics)
  {
    var m := start + set i: nat, k: nat | i < |t| && Reached(t, i) && k < |t[i].Slots()| :: t[i].Slots()[k];
    forall i: nat | InScope(t, i) ensures Settled(t[i], can, m) {
      assert Reached(t, i);
      forall s <- t[i].Slots() ensures s in m {
        var k: nat :| k < |t[i].Slots()| && t[i].Slots()[k] == s;
      }
    }
    assert r <= m;
    forall s <- r - start
      ensures exists i: nat ::
                Reached(t, i) && (s in t[i].constants || s in t[i].defaults || s in t[i].statics)
    {
      var i: nat, k: nat :| i < |t| && Reached(t, i) && k < |t[i].Slots()| && t[i].Slots()[k] == s;
      assert s in t[i].Slots();
    }
  }

  lemma FlagLists(t: seq<Class>, updated: seq<bool>, astDefaults: seq<bool>, astStatics: seq<bool>, r: set<Slot>)
    requires |updated| == |astDefaults| == |astStatics| == |t|
    requires FlagsHold(t, updated, astDefaults, astStatics, r)
    ensures forall i: nat | i < |t| :: var c := t[i];
              && (updated[i] ==> (forall s <- c.constants :: s in r) && (forall s <- c.defaults :: s in r)
                                 && forall s <- c.statics :: s in r)
              && (!astDefaults[i] ==> forall s <- c.defaults :: s in r)
              && (!astStatics[i] ==> forall s <- c.statics :: s in r)
  {
    forall i: nat | i < |t| ensures FlagHolds(t[i], updated[i], astDefaults[i], astStatics[i], r) {
      FlagAt(t, updated, astDefaults, astStatics, r, i);
    }
  }

  /** The positions without ZEND_ACC_CONSTANTS_UPDATED. */
  ghost function Left(updated: seq<bool>): set<nat> {
    set i: nat | i < |updated| && !updated[i]
  }

  lemma LeftShrinks(was: seq<bool>, now: seq<bool>, i: nat)
    requires i < |was| && !was[i] && (now == was || now == was[i := true])
    ensures Left(now) <= Left(was) && (now[i] ==> Left(now) < Left(was))
  {
    assert i in Left(was);
  }

  lemma ForcedSelf(t: seq<Class>, can: Evaluator, start: set<Slot>)
    ensures Forced(t, can, start, start)
  {
  }
}
