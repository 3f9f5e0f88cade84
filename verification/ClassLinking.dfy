/**
 opkit_link_classes: repeated passes over the class table until a pass links nothing.
 zend_do_link_class is taken to succeed exactly when every named parent, interface and trait is
 the key of a linked entry; when it fails it either returns NULL or bails out, and either may happen.
 */
module ClassLinking {
  import opened Wrappers

  type Name = string

  /** A class entry.  lcname is its lowercase name; parent and the lists hold lowercase names. */
  datatype Class = Class(lcname: Name, internal: bool, topLevel: bool, anonymous: bool,
                         parent: Option<Name>, interfaces: seq<Name>, traits: seq<Name>)
  {
    function Deps(): seq<Name> {
      (if parent.Some? then [parent.value] else []) + interfaces + traits
    }

    predicate Eligible() { !internal && (topLevel || anonymous) }
  }

  datatype LinkError = NoError | UnknownParent(name: Name) | UnknownInterface(name: Name) | UnknownTrait(name: Name)

  // ---------------------------------------------------------------- the least fixpoint

  /** Every dependency of class i is the name of a class in s. */
  ghost predicate Ready(t: seq<Class>, s: set<nat>, i: nat)
    requires i < |t|
  {
    forall d <- t[i].Deps() :: exists j <- s :: j < |t| && t[j].lcname == d
  }

  ghost predicate Closed(t: seq<Class>, s: set<nat>) {
    forall i: nat | i < |t| && t[i].Eligible() && Ready(t, s, i) :: i in s
  }

  /** l is the smallest closed set of entries holding s. */
  ghost predicate Least(t: seq<Class>, s: set<nat>, l: set<nat>) {
    s <= l && Closed(t, l) && forall m: set<nat> | s <= m && Closed(t, m) :: l <= m
  }

  ghost predicate DistinctNames(t: seq<Class>) {
    forall i: nat, j: nat | i < j < |t| :: t[i].lcname != t[j].lcname
  }

  lemma ReadyGrows(t: seq<Class>, s: set<nat>, m: set<nat>, i: nat)
    requires i < |t| && s <= m && Ready(t, s, i)
    ensures Ready(t, m, i)
  {
    forall d <- t[i].Deps() ensures exists j <- m :: j < |t| && t[j].lcname == d {
      var j: nat :| j in s && j < |t| && t[j].lcname == d;
      assert j in m;
    }
  }

  // ---------------------------------------------------------------- the table order

  /** u is t in another order: entry i of u is entry p[i] of t, and q undoes p. */
  ghost predicate Reordered(t: seq<Class>, u: seq<Class>, p: seq<nat>, q: seq<nat>) {
    && |t| == |u| == |p| == |q|
    && (forall i: nat | i < |t| :: p[i] < |t| && q[i] < |t| && q[p[i]] == i && p[q[i]] == i)
    && (forall i: nat | i < |u| :: u[i] == t[p[i]])
  }

  function Image(p: seq<nat>, s: set<nat>): set<nat> {
    set i: nat | i in s && i < |p| :: p[i]
  }

  lemma ClosedImage(t: seq<Class>, u: seq<Class>, p: seq<nat>, q: seq<nat>, m: set<nat>)
    requires Reordered(t, u, p, q) && Closed(u, m)
    ensures Closed(t, Image(p, m))
  {
    var s := Image(p, m);
    forall i: nat | i < |t| && t[i].Eligible() && Ready(t, s, i) ensures i in s {
      assert u[q[i]] == t[i];
      forall d <- u[q[i]].Deps() ensures exists j <- m :: j < |u| && u[j].lcname == d {
        assert d in t[i].Deps();
        var k: nat :| k in s && k < |t| && t[k].lcname == d;
        var j: nat :| j in m && j < |p| && p[j] == k;
        assert u[j].lcname == d;
      }
      assert q[i] in m;
      assert p[q[i]] == i;
    }
  }

  lemma LeastBelow(t: seq<Class>, u: seq<Class>, p: seq<nat>, q: seq<nat>, s: set<nat>, l: set<nat>, m: set<nat>)
    requires Reordered(t, u, p, q) && (forall i <- m :: i < |t|)
    requires Least(t, Image(p, s), l) && Least(u, s, m)
    ensures l <= Image(p, m)
  {
    ClosedImage(t, u, p, q, m);
    assert Image(p, s) <= Image(p, m);
  }

  /** Whatever the order of the table, the same classes end up linked. */
  lemma OrderDoesNotMatter(t: seq<Class>, u: seq<Class>, p: seq<nat>, q: seq<nat>, s: set<nat>, l: set<nat>,
                           m: set<nat>)
    requires Reordered(t, u, p, q)
    requires (forall i <- s :: i < |t|) && (forall i <- l :: i < |t|) && (forall i <- m :: i < |t|)
    requires Least(t, Image(p, s), l) && Least(u, s, m)
    ensures l == Image(p, m)
  {
    LeastBelow(t, u, p, q, s, l, m);
    assert Image(q, Image(p, s)) == s by {
      forall i | i in s ensures i in Image(q, Image(p, s)) { assert p[i] in Image(p, s) && q[p[i]] == i; }
    }
    LeastBelow(u, t, q, p, Image(p, s), m, l);
    forall k | k in Image(p, m) ensures k in l {
      var j: nat :| j in m && j < |p| && p[j] == k;
      var i: nat :| i in l && i < |q| && q[i] == j;
      assert i == k;
    }
  }

  // ---------------------------------------------------------------- the table

  /** An entry other than i is under the lowercase name of class i. */
  ghost predicate Holds(t: seq<Class>, keys: seq<Name>, i: nat)
    requires i < |t|
  {
    exists j: nat :: j < |keys| && j != i && keys[j] == t[i].lcname
  }

  ghost predicate DistinctKeys(keys: seq<Name>) {
    forall i: nat, j: nat | i < |keys| && j < |keys| && keys[i] == keys[j] :: i == j
  }

  /** A hash table: keys are distinct.  Any class, linked or not, may be under any key. */
  ghost predicate TableOk(t: seq<Class>, keys: seq<Name>, linked: seq<bool>) {
    |keys| == |linked| == |t| && DistinctKeys(keys)
  }

  /** The classes under the names they are found by once linked: a linked one keeps its key. */
  ghost function Found(t: seq<Class>, keys: seq<Name>, linked: seq<bool>): (u: seq<Class>)
    requires TableOk(t, keys, linked)
    ensures |u| == |t|
    ensures forall i: nat | i < |t| ::
              u[i].Deps() == t[i].Deps() && (u[i].Eligible() <==> t[i].Eligible())
              && u[i].lcname == if linked[i] then keys[i] else t[i].lcname
  {
    seq(|t|, i requires 0 <= i < |t| => t[i].(lcname := if linked[i] then keys[i] else t[i].lcname))
  }

  /** Entry i may be rekeyed during a run. */
  predicate Waiting(t: seq<Class>, linked: seq<bool>, i: nat)
    requires i < |t| == |linked|
  {
    t[i].Eligible() && !linked[i]
  }

  /**
   No waiting entry is under the lowercase name of another waiting class: it is under its own name
   or, usually, under a runtime definition key.
   */
  ghost predicate OwnKeys(t: seq<Class>, keys: seq<Name>, linked: seq<bool>)
    requires |keys| == |linked| == |t|
  {
    forall i: nat, j: nat | i < |t| && j < |t| && Waiting(t, linked, i) && Waiting(t, linked, j) ::
      keys[i] == t[j].lcname ==> keys[i] == t[i].lcname
  }

  /** The lowercase name of a waiting class is no other entry's key and no other waiting class's name. */
  ghost predicate Undisputed(t: seq<Class>, keys: seq<Name>, linked: seq<bool>)
    requires |keys| == |linked| == |t|
  {
    forall i: nat, j: nat | i < |t| && j < |t| && i != j && Waiting(t, linked, i) ::
      keys[j] != t[i].lcname && (Waiting(t, linked, j) ==> t[j].lcname != t[i].lcname)
  }

  ghost function LinkedOf(linked: seq<bool>): set<nat> {
    set i: nat | i < |linked| && linked[i]
  }

  /** A linked entry is under the name. */
  predicate IsLinked(keys: seq<Name>, linked: seq<bool>, name: Name)
    requires |keys| == |linked|
  {
    exists j | 0 <= j < |keys| :: linked[j] && keys[j] == name
  }

  /** The outcome of zend_do_link_class: linked entries are under the names of the parent, the interfaces and
      the traits. */
  predicate CanLink(keys: seq<Name>, linked: seq<bool>, c: Class)
    requires |keys| == |linked|
  {
    && (c.parent.Some? ==> IsLinked(keys, linked, c.parent.value))
    && (forall d <- c.interfaces :: IsLinked(keys, linked, d))
    && (forall d <- c.traits :: IsLinked(keys, linked, d))
  }

  lemma CanLinkIsReady(t: seq<Class>, keys: seq<Name>, linked: seq<bool>, i: nat)
    requires TableOk(t, keys, linked) && i < |t|
    ensures CanLink(keys, linked, t[i]) <==> Ready(Found(t, keys, linked), LinkedOf(linked), i)
  {
    var c, u := t[i], Found(t, keys, linked);
    assert u[i].Deps() == c.Deps();
    if CanLink(keys, linked, c) {
      forall d <- c.Deps() ensures exists j <- LinkedOf(linked) :: j < |u| && u[j].lcname == d {
        assert IsLinked(keys, linked, d);
        var j: nat :| j < |keys| && linked[j] && keys[j] == d;
        assert j in LinkedOf(linked);
      }
    }
    if Ready(u, LinkedOf(linked), i) {
      forall d <- c.Deps() ensures IsLinked(keys, linked, d) {
        assert d in u[i].Deps();
        var j: nat :| j in LinkedOf(linked) && j < |u| && u[j].lcname == d;
      }
      assert c.parent.Some? ==> c.parent.value in c.Deps();
      assert forall d <- c.interfaces :: d in c.Deps();
      assert forall d <- c.traits :: d in c.Deps();
    }
  }

  /** Linked entries keep their keys, so names that could be linked against still can. */
  lemma CanLinkStays(was: seq<Name>, flags: seq<bool>, keys: seq<Name>, linked: seq<bool>, c: Class)
    requires |was| == |flags| == |keys| == |linked|
    requires forall j: nat | j < |flags| && flags[j] :: linked[j] && keys[j] == was[j]
    requires CanLink(was, flags, c)
    ensures CanLink(keys, linked, c)
  {
    forall d | IsLinked(was, flags, d) ensures IsLinked(keys, linked, d) {
      var j: nat :| j < |was| && flags[j] && was[j] == d;
      assert linked[j] && keys[j] == d;
    }
  }

  /** A waiting entry may take its lowercase name when nobody has it; nobody's links depend on it. */
  lemma RekeyKeepsTable(t: seq<Class>, keys: seq<Name>, linked: seq<bool>, i: nat)
    requires TableOk(t, keys, linked) && i < |t| && !linked[i]
    requires forall j: nat | j < |keys| && j != i :: keys[j] != t[i].lcname
    ensures TableOk(t, keys[i := t[i].lcname], linked)
    ensures Found(t, keys[i := t[i].lcname], linked) == Found(t, keys, linked)
    ensures CanLink(keys[i := t[i].lcname], linked, t[i]) == CanLink(keys, linked, t[i])
    ensures OwnKeys(t, keys, linked) ==> OwnKeys(t, keys[i := t[i].lcname], linked)
  {
    var after := keys[i := t[i].lcname];
    assert forall j: nat | j < |keys| && linked[j] :: after[j] == keys[j];
    forall d: Name ensures IsLinked(after, linked, d) == IsLinked(keys, linked, d) {
      if j: nat :| j < |keys| && linked[j] && keys[j] == d { assert after[j] == d; }
      if j: nat :| j < |keys| && linked[j] && after[j] == d { assert keys[j] == d; }
    }
  }

  lemma LinkKeepsTable(t: seq<Class>, keys: seq<Name>, linked: seq<bool>, i: nat)
    requires TableOk(t, keys, linked) && i < |t| && keys[i] == t[i].lcname
    ensures TableOk(t, keys, linked[i := true])
    ensures Found(t, keys, linked[i := true]) == Found(t, keys, linked)
    ensures OwnKeys(t, keys, linked) ==> OwnKeys(t, keys, linked[i := true])
  {
  }

  // ---------------------------------------------------------------- classes and the keys they are under

  /** The names of a table in another order are those of the table, in that order. */
  lemma FoundReordered(t: seq<Class>, keys: seq<Name>, linked: seq<bool>,
                       u: seq<Class>, keys': seq<Name>, linked': seq<bool>, p: seq<nat>, q: seq<nat>)
    requires TableOk(t, keys, linked) && TableOk(u, keys', linked') && Reordered(t, u, p, q)
    requires forall i: nat | i < |u| :: keys'[i] == keys[p[i]] && linked'[i] == linked[p[i]]
    ensures Reordered(Found(t, keys, linked), Found(u, keys', linked'), p, q)
    ensures LinkedOf(linked) == Image(p, LinkedOf(linked'))
  {
    var l, l' := LinkedOf(linked), LinkedOf(linked');
    forall i | i in l ensures i in Image(p, l') {
      assert q[i] in l' && p[q[i]] == i;
    }
    forall i: nat | i < |u| ensures Found(u, keys', linked')[i] == Found(t, keys, linked)[p[i]] {
      assert u[i] == t[p[i]];
    }
  }

  /** Linked classes that a dependency of c names, by class or by key, are under their own names. */
  ghost predicate Placed(t: seq<Class>, keys: seq<Name>, linked: seq<bool>, c: Class)
    requires |keys| == |linked| == |t|
  {
    forall j: nat | j < |t| && linked[j] && (t[j].lcname in c.Deps() || keys[j] in c.Deps()) ::
      keys[j] == t[j].lcname
  }

  /** Then being found and being there are the same for the dependencies of class i. */
  lemma PlacedIsFound(t: seq<Class>, keys: seq<Name>, linked: seq<bool>, s: set<nat>, i: nat)
    requires TableOk(t, keys, linked) && i < |t| && Placed(t, keys, linked, t[i])
    ensures Ready(Found(t, keys, linked), s, i) <==> Ready(t, s, i)
  {
    var u := Found(t, keys, linked);
    assert u[i].Deps() == t[i].Deps();
    if Ready(u, s, i) {
      forall d <- t[i].Deps() ensures exists j <- s :: j < |t| && t[j].lcname == d {
        var j: nat :| j in s && j < |u| && u[j].lcname == d;
        assert t[j].lcname == d;
      }
    }
    if Ready(t, s, i) {
      forall d <- u[i].Deps() ensures exists j <- s :: j < |u| && u[j].lcname == d {
        var j: nat :| j in s && j < |t| && t[j].lcname == d;
        assert u[j].lcname == d;
      }
    }
  }

  /** What is linked in the end beyond the start was ready. */
  lemma LeastIsReady(u: seq<Class>, s: set<nat>, l: set<nat>, i: nat)
    requires Least(u, s, l) && i < |u| && i in l && i !in s
    ensures Ready(u, l, i)
  {
    if !Ready(u, l, i) {
      var m := l - {i};
      forall k: nat | k < |u| && u[k].Eligible() && Ready(u, m, k) ensures k in m {
        ReadyGrows(u, m, l, k);
      }
      assert Closed(u, m) && s <= m;
      assert false;
    }
  }

  /**
   A class whose dependencies are all linked from the start is linked in the end if and only if each
   of them is found under its name at the start: being linked under another key does not count.
   */
  lemma LinkedExactly(t: seq<Class>, keys: seq<Name>, linked: seq<bool>, l: set<nat>, i: nat)
    requires TableOk(t, keys, linked) && DistinctNames(t) && i < |t| && Waiting(t, linked, i)
    requires Ready(t, LinkedOf(linked), i) && Least(Found(t, keys, linked), LinkedOf(linked), l)
    ensures i in l <==> CanLink(keys, linked, t[i])
  {
    hide CanLink, Ready, Found, DistinctKeys, DistinctNames;
    var u, s := Found(t, keys, linked), LinkedOf(linked);
    assert i !in s;
    CanLinkIsReady(t, keys, linked, i);
    if CanLink(keys, linked, t[i]) {
      ReadyGrows(u, s, l, i);
    }
    if i in l {
      hide Least, Waiting;
      LeastIsReady(u, s, l, i);
      FoundAtStart(t, keys, linked, l, i);
    }
  }

  /** The class of a dependency is linked at the start, so what is found under its name was, too. */
  lemma FoundAtStart(t: seq<Class>, keys: seq<Name>, linked: seq<bool>, l: set<nat>, i: nat)
    requires TableOk(t, keys, linked) && DistinctNames(t) && i < |t|
    requires Ready(t, LinkedOf(linked), i) && Ready(Found(t, keys, linked), l, i)
    ensures Ready(Found(t, keys, linked), LinkedOf(linked), i)
  {
    hide DistinctKeys, Class.Deps;
    var u, s := Found(t, keys, linked), LinkedOf(linked);
    forall d <- u[i].Deps() ensures exists j <- s :: j < |u| && u[j].lcname == d {
      var j: nat :| j in l && j < |u| && u[j].lcname == d;
      assert d in t[i].Deps();
      var k: nat :| k in s && k < |t| && t[k].lcname == d;
      assert j in s;
    }
  }

  /** Distinct names and keys that are nobody else's name leave no dispute. */
  lemma DistinctIsUndisputed(t: seq<Class>, keys: seq<Name>, linked: seq<bool>)
    requires TableOk(t, keys, linked) && DistinctNames(t)
    requires forall i: nat, j: nat | i < |t| && j < |t| && keys[j] == t[i].lcname :: i == j
    ensures Undisputed(t, keys, linked)
  {
  }

  lemma MissingCannotLink(keys: seq<Name>, linked: seq<bool>, c: Class)
    requires |keys| == |linked|
    requires (c.parent.Some? && c.parent.value !in keys) || (exists d <- c.interfaces :: d !in keys)
             || exists d <- c.traits :: d !in keys
    ensures !CanLink(keys, linked, c)
  {
    forall d | IsLinked(keys, linked, d) ensures d in keys {}
  }

  /** EG(class_table): the entries keep their positions, their keys and LINKED flags change. */
  class ClassTable {
    const classes: seq<Class>
    var keys: seq<Name>
    var linked: seq<bool>

    ghost predicate Valid()
      reads this
    {
      TableOk(classes, keys, linked)
    }

    /** The entries that carry LINKED. */
    ghost function Linked(): set<nat>
      reads this
    {
      LinkedOf(linked)
    }

    /** Another entry holds the lowercase name of entry i. */
    ghost predicate Taken(i: nat)
      requires i < |classes|
      reads this
    {
      Holds(classes, keys, i)
    }

    /** The classes under the names they are found by; no step of a run changes it. */
    ghost function Names(): seq<Class>
      requires Valid()
      reads this
    {
      Found(classes, keys, linked)
    }

    /** Entry i cannot be linked as things stand. */
    ghost predicate Stuck(i: nat)
      requires Valid() && i < |classes|
      reads this
    {
      Waiting(classes, linked, i) ==> Taken(i) || !Ready(Names(), Linked(), i)
    }

    constructor (classes: seq<Class>, keys: seq<Name>, linked: seq<bool>)
      ensures this.classes == classes && this.keys == keys && this.linked == linked
    {
      this.classes, this.keys, this.linked := classes, keys, linked;
    }

    /** zend_hash_find on the key; |keys| when absent. */
    method Find(key: Name) returns (i: nat)
      ensures i <= |keys|
      ensures i < |keys| ==> keys[i] == key
      ensures i == |keys| ==> key !in keys
    {
      i := 0;
      while i < |keys| && keys[i] != key
        invariant i <= |keys|
        invariant forall j: nat | j < i :: keys[j] != key
      {
        i := i + 1;
      }
    }

    /** The first name of the list that no entry holds, or none. */
    method FirstUnknown(names: seq<Name>) returns (r: Option<Name>)
      ensures r.None? ==> forall d <- names :: d in keys
      ensures r.Some? ==> exists k: nat ::
                k < |names| && names[k] == r.value && r.value !in keys && forall m: nat | m < k :: names[m] in keys
    {
      for k := 0 to |names|
        invariant forall m: nat | m < k :: names[m] in keys
      {
        var at := Find(names[k]);
        if at == |keys| {
          return Some(names[k]);
        }
      }
      r := None;
    }

    /** opkit_resolve_class_deps: the parent, then the interfaces, then the traits. */
    method ResolveDeps(c: Class) returns (error: LinkError)
      ensures error == NoError <==> (c.parent.Some? ==> c.parent.value in keys)
                                    && (forall d <- c.interfaces :: d in keys) && (forall d <- c.traits :: d in keys)
      ensures error.UnknownParent? ==> c.parent == Some(error.name) && error.name !in keys
      ensures error.UnknownInterface? ==> error.name in c.interfaces && error.name !in keys
                                          && (c.parent.Some? ==> c.parent.value in keys)
      ensures error.UnknownTrait? ==> error.name in c.traits && error.name !in keys
                                      && (forall d <- c.interfaces :: d in keys)
                                      && (c.parent.Some? ==> c.parent.value in keys)
    {
      if c.parent.Some? {
        var at := Find(c.parent.value);
        if at == |keys| {
          return UnknownParent(c.parent.value);
        }
      }
      var face := FirstUnknown(c.interfaces);
      if face.Some? {
        return UnknownInterface(face.value);
      }
      var trayt := FirstUnknown(c.traits);
      if trayt.Some? {
        return UnknownTrait(trayt.value);
      }
      error := NoError;
    }

    /** zend_hash_set_bucket_key: refused when another entry holds the key. */
    method SetBucketKey(i: nat, key: Name) returns (ok: bool)
      requires i < |keys| && DistinctKeys(keys)
      modifies this`keys
      ensures ok <==> forall j: nat | j < |old(keys)| && j != i :: old(keys)[j] != key
      ensures keys == if ok then old(keys)[i := key] else old(keys)
    {
      var at := Find(key);
      ok := at == |keys| || at == i;
      if ok {
        keys := keys[i := key];
      }
    }

    /** The body of the loop for the entry at position i. */
    method LinkEntry(i: nat) returns (changed: bool)
      requires Valid() && i < |classes|
      modifies this
      ensures Valid() && Names() == old(Names())
      ensures linked == if changed then old(linked)[i := true] else old(linked)
      ensures changed ==> old(Waiting(classes, linked, i) && !Taken(i)) && Ready(Names(), old(Linked()), i)
      ensures changed ==> keys[i] == classes[i].lcname && CanLink(keys, old(linked), classes[i])
      ensures !changed ==> Stuck(i)
      ensures Moved(classes, old(keys), old(linked), keys, i)
      ensures old(OwnKeys(classes, keys, linked)) ==> OwnKeys(classes, keys, linked)
    {
      hide Ready, CanLink, DistinctKeys, OwnKeys, Found, Holds, Class.Deps;
      HoldsExactly(classes, keys, i);
      var c, key := classes[i], keys[i];
      changed := false;
      CanLinkIsReady(classes, keys, linked, i);
      if c.internal || !(c.topLevel || c.anonymous) || linked[i] {
        return;
      }
      if !c.anonymous {
        var existing := Find(c.lcname);
        if existing < |keys| && existing != i {
          return;
        }
      }
      var error := ResolveDeps(c);
      if error != NoError {
        MissingCannotLink(keys, linked, c);
        return;
      }
      if key != c.lcname {
        var rekeyed := SetBucketKey(i, c.lcname);
        if !rekeyed {
          return;
        }
        RekeyKeepsTable(classes, old(keys), linked, i);
      } else {
        OnlyHolder(classes, keys, i);
      }
      assert !old(Taken(i));
      if CanLink(keys, linked, c) {
        LinkKeepsTable(classes, keys, linked, i);
        linked := linked[i := true];
        changed := true;
      } else {
        var bailout: bool := *;
        if bailout {
          Restorable(classes, old(keys), keys, i);
          var restored := SetBucketKey(i, key);
          assert keys == old(keys);
        }
      }
    }

    /** One pass over the table. */
    method Pass() returns (changed: bool)
      requires Valid()
      modifies this
      ensures Valid() && Names() == old(Names())
      ensures old(Linked()) <= Linked() && (changed <==> Linked() != old(Linked()))
      ensures Within(Names(), old(Linked()), Linked())
      ensures Rekeyed(classes, old(keys), old(linked), keys) && |linked| == |classes|
      ensures forall j: nat | j < |classes| && old(linked)[j] :: linked[j] && keys[j] == old(keys)[j]
      ensures Grounded(classes, old(linked), keys, linked)
      ensures old(OwnKeys(classes, keys, linked)) ==>
                OwnKeys(classes, keys, linked) && (!changed ==> forall i: nat | i < |classes| :: Stuck(i))
    {
      hide DistinctKeys, Ready, Within, LinkedOf, OwnKeys, Found, Moved, Rekeyed, Holds, Grounded, CanLink;
      ghost var start, names, own := Linked(), Names(), OwnKeys(classes, keys, linked);
      changed := false;
      WithinSelf(names, start);
      RekeyedSelf(classes, keys, linked);
      GroundedSelf(classes, keys, linked);
      for i := 0 to |classes|
        invariant Valid() && Names() == names && |linked| == |classes|
        invariant start <= Linked() && (changed <==> Linked() != start)
        invariant Within(names, start, Linked())
        invariant forall j: nat | j < |classes| && Waiting(classes, linked, j) :: Waiting(classes, old(linked), j)
        invariant Rekeyed(classes, old(keys), old(linked), keys)
        invariant forall j: nat | j < |classes| && old(linked)[j] :: linked[j] && keys[j] == old(keys)[j]
        invariant Grounded(classes, old(linked), keys, linked)
        invariant own ==> OwnKeys(classes, keys, linked)
        invariant own && !changed ==> forall j: nat | j < i :: Stuck(j)
      {
        ghost var before, was, flags := Linked(), keys, linked;
        label L:
        var one := LinkEntry(i);
        TableSizes(classes, was, flags);
        FlagSet(flags, linked, i, one);
        RekeyedStep(classes, old(keys), old(linked), was, flags, keys, i);
        LinkedKeep(classes, was, flags, keys, linked, i, one);
        GroundedStep(classes, old(linked), was, flags, keys, linked, i, one);
        if one {
          WithinStep(names, start, before, i);
        } else {
          assert Linked() == before;
        }
        changed := changed || one;
        if own && !changed {
          TakenStays(classes, was, flags, keys, i);
          forall j: nat | j < i ensures Stuck(j) {
            assert old@L(Stuck(j));
          }
        }
      }
    }

    /** opkit_link_classes */
    method LinkClasses()
      requires Valid()
      modifies this
      ensures Valid() && Names() == old(Names())
      ensures old(Linked()) <= Linked() && Within(Names(), old(Linked()), Linked())
      ensures Rekeyed(classes, old(keys), old(linked), keys)
      ensures forall i: nat | i < |classes| && linked[i] && !old(linked)[i] :: var c := classes[i];
                && keys[i] == c.lcname && !c.internal && (c.topLevel || c.anonymous)
                && (c.parent.Some? ==> IsLinked(keys, linked, c.parent.value))
                && (forall d <- c.interfaces :: IsLinked(keys, linked, d))
                && (forall d <- c.traits :: IsLinked(keys, linked, d))
      ensures old(OwnKeys(classes, keys, linked)) ==>
                forall i: nat | i < |classes| && !linked[i] && !Taken(i) :: var c := classes[i];
                  !c.internal && (c.topLevel || c.anonymous) ==>
                    || (c.parent.Some? && !IsLinked(keys, linked, c.parent.value))
                    || (exists d <- c.interfaces :: !IsLinked(keys, linked, d))
                    || (exists d <- c.traits :: !IsLinked(keys, linked, d))
      ensures old(OwnKeys(classes, keys, linked)) ==> forall i: nat | i < |classes| :: Stuck(i)
      ensures old(OwnKeys(classes, keys, linked)) ==>
                forall i: nat | i < |classes| && Waiting(classes, linked, i) ::
                  Placed(classes, keys, linked, classes[i]) ==> Taken(i) || !Ready(classes, Linked(), i)
      ensures old(Undisputed(classes, keys, linked)) ==> Least(Names(), old(Linked()), Linked())
    {
      hide DistinctKeys, Ready, Within, Closed, OwnKeys, Found, Rekeyed, Grounded, CanLink, IsLinked;
      ghost var start, all := Linked(), LinkedOf(seq(|classes|, i => true));
      ghost var names, own := Names(), OwnKeys(classes, keys, linked);
      WithinSelf(names, start);
      RekeyedSelf(classes, keys, linked);
      GroundedSelf(classes, keys, linked);
      var changed := true;
      while changed
        invariant Valid() && Names() == names
        invariant start <= Linked() && Within(names, start, Linked())
        invariant Rekeyed(classes, old(keys), old(linked), keys) && |linked| == |classes|
        invariant Grounded(classes, old(linked), keys, linked)
        invariant own ==> OwnKeys(classes, keys, linked)
        invariant own && !changed ==> forall i: nat | i < |classes| :: Stuck(i)
        decreases all - Linked(), changed
      {
        ghost var before, was, flags := Linked(), keys, linked;
        LinkedInTable();
        changed := Pass();
        LinkedInTable();
        WithinTrans(names, start, before, Linked());
        RekeyedTrans(classes, old(keys), old(linked), was, flags, keys);
        GroundedTrans(classes, old(linked), was, flags, keys, linked);
        if changed {
          ghost var i :| i in Linked() && i !in before;
          assert i in all - before;
        }
      }
      GroundedMeans(classes, old(linked), keys, linked);
      if own {
        StuckByClass();
        StuckByFields();
      }
      if old(Undisputed(classes, keys, linked)) {
        UndisputedKeys(classes, old(keys), old(linked));
        NoneTaken(classes, old(keys), old(linked), keys, linked);
        StuckIsLeast(start);
      }
    }

    lemma LinkedInTable()
      requires Valid()
      ensures forall i <- Linked() :: i < |classes|
    {
    }

    /** What a stuck entry lacks, in its own fields. */
    lemma StuckByFields()
      requires Valid() && forall i: nat | i < |classes| :: Stuck(i)
      ensures forall i: nat | i < |classes| && !linked[i] && !Taken(i) :: var c := classes[i];
                !c.internal && (c.topLevel || c.anonymous) ==>
                  || (c.parent.Some? && !IsLinked(keys, linked, c.parent.value))
                  || (exists d <- c.interfaces :: !IsLinked(keys, linked, d))
                  || (exists d <- c.traits :: !IsLinked(keys, linked, d))
    {
      hide Ready, Found, DistinctKeys, Holds, IsLinked;
      forall i: nat | i < |classes| && Waiting(classes, linked, i) && !Taken(i)
        ensures !CanLink(keys, linked, classes[i])
      {
        assert Stuck(i);
        CanLinkIsReady(classes, keys, linked, i);
      }
    }

    lemma StuckByClass()
      requires Valid() && forall i: nat | i < |classes| :: Stuck(i)
      ensures forall i: nat | i < |classes| && Waiting(classes, linked, i) ::
                Placed(classes, keys, linked, classes[i]) ==> Taken(i) || !Ready(classes, Linked(), i)
    {
      hide Ready, Found, Placed, DistinctKeys, Holds;
      forall i: nat | i < |classes| && Waiting(classes, linked, i) && Placed(classes, keys, linked, classes[i])
        ensures Taken(i) || !Ready(classes, Linked(), i)
      {
        assert Stuck(i);
        PlacedIsFound(classes, keys, linked, Linked(), i);
      }
    }

    /** With undisputed names nothing is stuck behind another entry's key. */
    lemma StuckIsLeast(s: set<nat>)
      requires Valid() && forall i: nat | i < |classes| :: Stuck(i)
      requires forall i: nat | i < |classes| && Waiting(classes, linked, i) :: !Taken(i)
      requires s <= Linked() && Within(Names(), s, Linked())
      ensures Least(Names(), s, Linked())
    {
      hide Ready;
      forall i: nat | i < |classes| && Names()[i].Eligible() && Ready(Names(), Linked(), i) ensures i in Linked() {
        assert Stuck(i);
      }
    }
  }

  /**
   A linked class under another key is not found by those that name it: whatever the passes do, b
   stays unlinked although its only dependency is linked and nobody holds its name.
   */
  method LinkedUnderOtherKey(table: ClassTable)
    requires table.classes == [Class("a", false, false, false, None, [], []),
                               Class("b", false, true, false, Some("a"), [], [])]
    requires table.keys == ["!a", "!b"] && table.linked == [true, false]
    modifies table
    ensures table.Valid() && table.linked == [true, false]
    ensures Waiting(table.classes, table.linked, 1) && Ready(table.classes, table.Linked(), 1) && !table.Taken(1)
  {
    hide Ready, CanLink, Undisputed, DistinctNames, DistinctKeys, Found, Least, OwnKeys, Placed;
    ghost var t, keys, linked := table.classes, table.keys, table.linked;
    OtherKey(t, keys, linked);
    table.LinkClasses();
    LinkedExactly(t, keys, linked, table.Linked(), 1);
    assert 1 !in table.Linked() && 0 in table.Linked();
    assert table.Linked() == LinkedOf(linked);
  }

  lemma OtherKey(t: seq<Class>, keys: seq<Name>, linked: seq<bool>)
    requires t == [Class("a", false, false, false, None, [], []), Class("b", false, true, false, Some("a"), [], [])]
    requires keys == ["!a", "!b"] && linked == [true, false]
    ensures TableOk(t, keys, linked) && DistinctNames(t) && Undisputed(t, keys, linked)
    ensures Ready(t, LinkedOf(linked), 1) && !CanLink(keys, linked, t[1])
  {
    assert t[1].Deps() == ["a"] && 0 in LinkedOf(linked) && t[0].lcname == "a";
    assert keys[0][0] == keys[1][0] == '!' && keys[0][1] == 'a' && keys[1][1] == 'b';
    assert "a" in t[1].Deps();
  }

  /**
   A waiting entry that holds another waiting class's name may give it up too late: b is passed over
   while a holds its name, a then takes its own name and cannot be linked.  Nothing was linked, so
   there is no further pass, and b is not linked although it could be.
   */
  method NameGivenUp(table: ClassTable) returns (changed: bool)
    requires table.classes == [Class("b", false, true, false, None, [], []),
                               Class("a", false, true, false, Some("b"), [], [])]
    requires table.keys == ["!b", "b"] && table.linked == [false, false]
    modifies table
    ensures !changed && table.Valid() && table.linked == [false, false]
    ensures table.keys != old(table.keys) ==> !table.Stuck(0)
  {
    assert table.keys[0][0] == '!' && table.classes[1].parent == Some("b");
    assert table.keys[1][0] == 'b' && table.classes[1].lcname[0] == 'a';
    hide DistinctKeys, OwnKeys, Found, Ready, Holds, Class.Deps, CanLink;
    NoneLinked(table.classes, table.keys, table.linked);
    var first := table.LinkEntry(0);
    assert !first && table.linked == [false, false] && table.keys == old(table.keys);
    assert table.Linked() == {};
    var second := table.LinkEntry(1);
    NoneLinked(table.classes, table.keys, table.linked);
    changed := first || second;
  }

  /** Two entries, none of them linked: only one without dependencies is ready. */
  lemma NoneLinked(t: seq<Class>, keys: seq<Name>, linked: seq<bool>)
    requires |t| == |keys| == 2 && linked == [false, false]
    ensures Holds(t, keys, 0) <==> keys[1] == t[0].lcname
    ensures keys[0] != keys[1] <==> DistinctKeys(keys)
    ensures DistinctKeys(keys) ==>
              var u := Found(t, keys, linked);
              && (t[1].parent.Some? ==> !Ready(u, {}, 1))
              && (t[0].parent.None? && t[0].interfaces == t[0].traits == [] ==> Ready(u, {}, 0))
  {
    if Holds(t, keys, 0) || keys[1] == t[0].lcname {
      assert keys[1] == t[0].lcname;
    }
    if DistinctKeys(keys) && t[1].parent.Some? {
      assert t[1].parent.value in Found(t, keys, linked)[1].Deps();
    }
  }

  /** l lies inside every closed set of entries that holds s. */
  ghost predicate Within(t: seq<Class>, s: set<nat>, l: set<nat>) {
    forall m: set<nat> | s <= m && Closed(t, m) :: l <= m
  }

  lemma WithinSelf(t: seq<Class>, s: set<nat>)
    ensures Within(t, s, s)
  {
  }

  lemma WithinStep(t: seq<Class>, s: set<nat>, l: set<nat>, i: nat)
    requires Within(t, s, l) && i < |t| && t[i].Eligible() && Ready(t, l, i)
    ensures Within(t, s, l + {i})
  {
    hide Ready;
    forall m: set<nat> | s <= m && Closed(t, m) ensures l + {i} <= m {
      ReadyGrows(t, l, m, i);
    }
  }

  lemma WithinTrans(t: seq<Class>, s: set<nat>, l: set<nat>, m: set<nat>)
    requires s <= l && Within(t, s, l) && Within(t, l, m)
    ensures Within(t, s, m)
  {
    hide Closed;
  }

  lemma FlagSet(was: seq<bool>, now: seq<bool>, i: nat, one: bool)
    requires i < |was| && now == if one then was[i := true] else was
    ensures LinkedOf(now) == if one then LinkedOf(was) + {i} else LinkedOf(was)
    ensures i in LinkedOf(was) <==> was[i]
  {
  }

  lemma TableSizes(t: seq<Class>, keys: seq<Name>, linked: seq<bool>)
    requires TableOk(t, keys, linked)
    ensures |t| == |keys| == |linked|
  {
  }

  /** One entry may have taken its lowercase name. */
  ghost predicate Moved(t: seq<Class>, was: seq<Name>, linked: seq<bool>, keys: seq<Name>, i: nat)
    requires i < |t| == |was| == |linked|
  {
    keys == was || (keys == was[i := t[i].lcname] && Waiting(t, linked, i))
  }

  /** Every key is the old one, or the lowercase name of an entry that was waiting. */
  ghost predicate Rekeyed(t: seq<Class>, was: seq<Name>, linked: seq<bool>, keys: seq<Name>)
    requires |t| == |was| == |linked|
  {
    |keys| == |t| &&
    forall j: nat | j < |t| :: keys[j] == was[j] || (Waiting(t, linked, j) && keys[j] == t[j].lcname)
  }

  lemma RekeyedSelf(t: seq<Class>, keys: seq<Name>, linked: seq<bool>)
    requires |t| == |keys| == |linked|
    ensures Rekeyed(t, keys, linked, keys)
  {
  }

  lemma RekeyedStep(t: seq<Class>, first: seq<Name>, linked: seq<bool>, was: seq<Name>, flags: seq<bool>,
                    keys: seq<Name>, i: nat)
    requires i < |t| == |first| == |linked| == |was| == |flags|
    requires Rekeyed(t, first, linked, was) && Moved(t, was, flags, keys, i)
    requires Waiting(t, flags, i) ==> Waiting(t, linked, i)
    ensures Rekeyed(t, first, linked, keys)
  {
  }

  lemma RekeyedTrans(t: seq<Class>, first: seq<Name>, linked: seq<bool>, was: seq<Name>, flags: seq<bool>,
                     keys: seq<Name>)
    requires |t| == |first| == |linked| == |was| == |flags| && LinkedOf(linked) <= LinkedOf(flags)
    requires Rekeyed(t, first, linked, was) && Rekeyed(t, was, flags, keys)
    ensures Rekeyed(t, first, linked, keys)
  {
    forall j: nat | j < |t| && Waiting(t, flags, j) ensures Waiting(t, linked, j) {
      assert j !in LinkedOf(flags);
    }
  }

  /** What was linked since the start is under its own name, and linked entries are under all names it needs. */
  ghost predicate Grounded(t: seq<Class>, start: seq<bool>, keys: seq<Name>, linked: seq<bool>)
    requires |t| == |start| == |keys| == |linked|
  {
    forall i: nat | i < |t| && linked[i] && !start[i] ::
      t[i].Eligible() && keys[i] == t[i].lcname && CanLink(keys, linked, t[i])
  }

  lemma GroundedSelf(t: seq<Class>, keys: seq<Name>, linked: seq<bool>)
    requires |t| == |keys| == |linked|
    ensures Grounded(t, linked, keys, linked)
  {
  }

  lemma GroundedMeans(t: seq<Class>, start: seq<bool>, keys: seq<Name>, linked: seq<bool>)
    requires |t| == |start| == |keys| == |linked| && Grounded(t, start, keys, linked)
    ensures forall i: nat | i < |t| && linked[i] && !start[i] :: var c := t[i];
              && keys[i] == c.lcname && !c.internal && (c.topLevel || c.anonymous)
              && (c.parent.Some? ==> IsLinked(keys, linked, c.parent.value))
              && (forall d <- c.interfaces :: IsLinked(keys, linked, d))
              && (forall d <- c.traits :: IsLinked(keys, linked, d))
  {
    hide IsLinked;
  }

  /** Entries that were linked are left alone. */
  lemma LinkedKeep(t: seq<Class>, was: seq<Name>, flags: seq<bool>, keys: seq<Name>, linked: seq<bool>, i: nat,
                   one: bool)
    requires i < |t| == |was| == |flags| && Moved(t, was, flags, keys, i)
    requires linked == if one then flags[i := true] else flags
    ensures |keys| == |linked| == |t| && forall j: nat | j < |t| && flags[j] :: linked[j] && keys[j] == was[j]
  {
  }

  lemma GroundedStep(t: seq<Class>, start: seq<bool>, was: seq<Name>, flags: seq<bool>, keys: seq<Name>,
                     linked: seq<bool>, i: nat, one: bool)
    requires i < |t| == |start| == |was| == |flags| == |keys|
    requires Grounded(t, start, was, flags) && linked == if one then flags[i := true] else flags
    requires forall j: nat | j < |t| && flags[j] :: keys[j] == was[j]
    requires one ==> Waiting(t, flags, i) && keys[i] == t[i].lcname && CanLink(keys, flags, t[i])
    ensures Grounded(t, start, keys, linked)
  {
    hide CanLink;
    forall j: nat | j < |t| && linked[j] && !start[j]
      ensures t[j].Eligible() && keys[j] == t[j].lcname && CanLink(keys, linked, t[j])
    {
      CanLinkStays(if flags[j] then was else keys, flags, keys, linked, t[j]);
    }
  }

  lemma GroundedTrans(t: seq<Class>, start: seq<bool>, was: seq<Name>, flags: seq<bool>, keys: seq<Name>,
                      linked: seq<bool>)
    requires |t| == |start| == |was| == |flags| == |keys| == |linked|
    requires Grounded(t, start, was, flags) && Grounded(t, flags, keys, linked)
    requires forall j: nat | j < |t| && flags[j] :: linked[j] && keys[j] == was[j]
    ensures Grounded(t, start, keys, linked)
  {
    hide CanLink;
    forall j: nat | j < |t| && linked[j] && !start[j] ensures keys[j] == t[j].lcname && CanLink(keys, linked, t[j]) {
      if flags[j] { CanLinkStays(was, flags, keys, linked, t[j]); }
    }
  }

  lemma UndisputedKeys(t: seq<Class>, keys: seq<Name>, linked: seq<bool>)
    requires |keys| == |linked| == |t| && Undisputed(t, keys, linked)
    ensures OwnKeys(t, keys, linked)
  {
  }

  lemma NoneTaken(t: seq<Class>, was: seq<Name>, flags: seq<bool>, keys: seq<Name>, linked: seq<bool>)
    requires |t| == |was| == |flags| == |linked| && LinkedOf(flags) <= LinkedOf(linked)
    requires Rekeyed(t, was, flags, keys) && Undisputed(t, was, flags)
    ensures forall i: nat | i < |t| && Waiting(t, linked, i) :: !Holds(t, keys, i)
  {
    forall i: nat, j: nat | i < |t| && Waiting(t, linked, i) && j < |t| && j != i ensures keys[j] != t[i].lcname {
      assert i !in LinkedOf(linked);
    }
  }

  lemma HoldsExactly(t: seq<Class>, keys: seq<Name>, i: nat)
    requires i < |t| == |keys|
    ensures Holds(t, keys, i) <==> !(forall j: nat | j < |keys| && j != i :: keys[j] != t[i].lcname)
  {
  }

  /** The only entry under the key of entry i is entry i. */
  lemma OnlyHolder(t: seq<Class>, keys: seq<Name>, i: nat)
    requires i < |t| == |keys| && DistinctKeys(keys) && keys[i] == t[i].lcname
    ensures !Holds(t, keys, i)
  {
  }

  /** An entry under a waiting class's lowercase name keeps it. */
  lemma TakenStays(t: seq<Class>, was: seq<Name>, linked: seq<bool>, keys: seq<Name>, i: nat)
    requires TableOk(t, was, linked) && OwnKeys(t, was, linked) && i < |t| && Moved(t, was, linked, keys, i)
    ensures forall j: nat | j < |t| && Waiting(t, linked, j) && Holds(t, was, j) :: Holds(t, keys, j)
  {
    forall j: nat | j < |t| && Waiting(t, linked, j) && Holds(t, was, j) ensures Holds(t, keys, j) {
      var k: nat :| k < |was| && k != j && was[k] == t[j].lcname;
      assert keys[k] == was[k];
    }
  }

  lemma Restorable(t: seq<Class>, was: seq<Name>, keys: seq<Name>, i: nat)
    requires i < |was| == |keys| == |t| && DistinctKeys(was) && (keys == was || keys == was[i := t[i].lcname])
    requires forall j: nat | j < |keys| && j != i :: keys[j] != t[i].lcname || keys == was
    ensures DistinctKeys(keys) && forall j: nat | j < |keys| && j != i :: keys[j] != was[i]
  {
  }
}
