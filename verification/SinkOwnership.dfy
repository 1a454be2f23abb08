/** The ownership state of the sink as a value: who is registered where and owns which keys, the
    moves that change it, and what every run of moves keeps. */
module SinkOwnership {
  import opened Sequences
  import opened SinkBatch

  datatype LeaseState<E, B> = LeaseState(element: E, bindingSet: B, keys: seq<Key>, active: bool)

  datatype SetState<L> = SetState(leases: set<L>, owned: set<Key>)

  /** Elements with a binding set, all binding sets, and all leases ever handed out. */
  datatype Ownership<E, B, L> = Ownership(
    registry: map<E, B>, sets: map<B, SetState<L>>, leases: map<L, LeaseState<E, B>>)
  {
    predicate Closed() {
      && (forall l :: l in leases ==> leases[l].bindingSet in sets)
      && (forall e :: e in registry ==> registry[e] in sets)
      && (forall s, l :: s in sets && l in sets[s].leases ==> l in leases)
    }

    predicate Reaches(e: E) { e in registry ==> registry[e] in sets }

    predicate Linked(l: L) { l in leases && leases[l].bindingSet in sets }

    /** A lease is active exactly while it is registered, and then its keys are its set's. */
    predicate LeaseOk(l: L)
      requires Closed() && l in leases
    {
      var x := leases[l];
      && Distinct(x.keys)
      && (x.active <==> x.element in registry && registry[x.element] == x.bindingSet && l in sets[x.bindingSet].leases)
      && (x.active ==> forall k :: k in x.keys ==> k in sets[x.bindingSet].owned)
    }

    ghost predicate OwnedBySome(s: B, k: Key)
      requires Closed() && s in sets
    {
      exists l :: l in sets[s].leases && k in leases[l].keys
    }

    /** A registered set has leases, all of its own element, and no key but theirs. */
    ghost predicate SetOk(e: E)
      requires Closed() && e in registry
    {
      var s := registry[e];
      && sets[s].leases != {}
      && (forall l :: l in sets[s].leases ==> leases[l].element == e && leases[l].bindingSet == s)
      && (forall k :: k in sets[s].owned ==> OwnedBySome(s, k))
    }

    predicate Disjoint(l: L, m: L)
      requires l in leases && m in leases
    {
      l != m && leases[l].active && leases[m].active && leases[l].element == leases[m].element ==>
        forall k :: k in leases[l].keys ==> k !in leases[m].keys
    }

    ghost predicate Valid() {
      && Closed()
      && (forall l :: l in leases ==> LeaseOk(l))
      && (forall e :: e in registry ==> SetOk(e))
      && (forall l, m :: l in leases && m in leases ==> Disjoint(l, m))
    }
  }

  ghost predicate ActiveOn<E, B, L>(o: Ownership<E, B, L>, l: L, e: E) {
    l in o.leases && o.leases[l].active && o.leases[l].element == e
  }

  /** Validity in the words of the module: the active leases of an element own pairwise disjoint
      keys, its set owns exactly their union, and it is registered iff it has one. */
  lemma OwnershipExact<E, B, L>(o: Ownership<E, B, L>, e: E)
    requires o.Valid()
    ensures e in o.registry <==> exists l :: ActiveOn(o, l, e)
    ensures e in o.registry ==> forall k :: k in o.sets[o.registry[e]].owned <==>
      exists l :: ActiveOn(o, l, e) && k in o.leases[l].keys
    ensures forall l, m :: ActiveOn(o, l, e) && ActiveOn(o, m, e) && l != m ==>
      forall k :: k in o.leases[l].keys ==> k !in o.leases[m].keys
  {
    if e in o.registry {
      assert o.SetOk(e);
      var s := o.registry[e];
      var x :| x in o.sets[s].leases;
      assert o.LeaseOk(x) && ActiveOn(o, x, e);
      forall k | k in o.sets[s].owned ensures exists l :: ActiveOn(o, l, e) && k in o.leases[l].keys {
        assert o.OwnedBySome(s, k);
        var l :| l in o.sets[s].leases && k in o.leases[l].keys;
        assert o.LeaseOk(l) && ActiveOn(o, l, e);
      }
    }
    forall l, m | ActiveOn(o, l, e) && ActiveOn(o, m, e) && l != m
      ensures forall k :: k in o.leases[l].keys ==> k !in o.leases[m].keys
    {
      assert o.Disjoint(l, m);
    }
  }

  /// ------------------------------------------------------------ moves

  function Dedup(keys: seq<Key>): (d: seq<Key>)
    ensures Distinct(d) && forall k :: k in d <==> k in keys
  {
    if keys == [] then []
    else
      var last, front := keys[|keys|-1], Dedup(keys[..|keys|-1]);
      if last in keys[..|keys|-1] then front else front + [last]
  }

  predicate Conflicts<E, B, L>(o: Ownership<E, B, L>, e: E, keys: seq<Key>)
    requires o.Reaches(e)
  {
    e in o.registry && exists k :: k in keys && k in o.sets[o.registry[e]].owned
  }

  /** An attach goes through: lease and spare set are new, and no key is taken. */
  predicate Admits<E, B, L>(o: Ownership<E, B, L>, e: E, spare: B, l: L, keys: seq<Key>)
    requires o.Closed()
  {
    !Conflicts(o, e, keys) && (e in o.registry || spare !in o.sets) && l !in o.leases
  }

  /** Attach a new lease; spare is the set to register when the element has none. */
  function Attached<E, B, L>(o: Ownership<E, B, L>, e: E, spare: B, l: L, keys: seq<Key>): Ownership<E, B, L>
    requires o.Reaches(e)
  {
    var s := if e in o.registry then o.registry[e] else spare;
    var was := if e in o.registry then o.sets[s] else SetState({}, {});
    Ownership(o.registry[e := s],
              o.sets[s := SetState(was.leases + {l}, was.owned + KeySet(keys))],
              o.leases[l := LeaseState(e, s, Dedup(keys), true)])
  }

  /** Take an active lease off the registry; an inactive one stays as it is. */
  function Revoked<E, B, L>(o: Ownership<E, B, L>, l: L): Ownership<E, B, L>
    requires o.Linked(l)
  {
    var x := o.leases[l];
    if !x.active then o
    else
      var left := o.sets[x.bindingSet].leases - {l};
      Ownership(if left == {} then o.registry - {x.element} else o.registry,
                o.sets[x.bindingSet := SetState(left, o.sets[x.bindingSet].owned - KeySet(x.keys))],
                o.leases[l := x.(active := false)])
  }

  /** After a completed commit the lease owns exactly the next keys. */
  function Switched<E, B, L>(o: Ownership<E, B, L>, l: L, next: seq<Key>): Ownership<E, B, L>
    requires o.Linked(l)
  {
    var x := o.leases[l];
    var s, dropped := o.sets[x.bindingSet], KeySet(x.keys) - KeySet(next);
    Ownership(o.registry,
              o.sets[x.bindingSet := s.(owned := s.owned - dropped + KeySet(next))],
              o.leases[l := x.(keys := next)])
  }

  /** A next key is free: the lease has it already, or nobody on the element has. */
  predicate Free<E, B, L>(o: Ownership<E, B, L>, l: L, next: seq<Key>)
    requires o.Linked(l)
  {
    forall k :: k in next && k in o.sets[o.leases[l].bindingSet].owned ==> k in o.leases[l].keys
  }

  lemma RevokedKeepsValid<E, B, L>(o: Ownership<E, B, L>, l: L)
    requires o.Valid() && l in o.leases
    ensures Revoked(o, l).Valid()
  {
    var p, x := Revoked(o, l), o.leases[l];
    if x.active {
      assert o.LeaseOk(l) && o.SetOk(x.element);
      forall m | m in p.leases ensures p.LeaseOk(m) {
        RevokedLeaseOk(o, l, m);
      }
      forall e | e in p.registry ensures p.SetOk(e) {
        RevokedSetOk(o, l, e);
      }
      forall m, n | m in p.leases && n in p.leases ensures p.Disjoint(m, n) {
        assert o.Disjoint(m, n);
      }
    }
  }

  lemma RevokedLeaseOk<E, B, L>(o: Ownership<E, B, L>, l: L, m: L)
    requires o.Valid() && l in o.leases && o.leases[l].active && Revoked(o, l).Closed() && m in o.leases
    ensures Revoked(o, l).LeaseOk(m)
  {
    var p, x, y := Revoked(o, l), o.leases[l], o.leases[m];
    assert o.LeaseOk(l) && o.LeaseOk(m) && o.Disjoint(m, l) && o.SetOk(x.element);
    if m != l && y.active {
      if y.element == x.element { assert m in o.sets[x.bindingSet].leases - {l}; }
      assert y.element in p.registry && p.registry[y.element] == y.bindingSet;
    }
  }

  lemma RevokedSetOk<E, B, L>(o: Ownership<E, B, L>, l: L, e: E)
    requires o.Valid() && l in o.leases && o.leases[l].active && Revoked(o, l).Closed() && e in Revoked(o, l).registry
    ensures Revoked(o, l).SetOk(e)
  {
    var p, s := Revoked(o, l), o.registry[e];
    assert o.SetOk(e) && o.LeaseOk(l);
    forall k | k in p.sets[s].owned ensures p.OwnedBySome(s, k) {
      assert o.OwnedBySome(s, k);
      var m :| m in o.sets[s].leases && k in o.leases[m].keys;
      assert m in p.sets[s].leases && k in p.leases[m].keys;
    }
  }

  lemma AttachedKeepsValid<E, B, L>(o: Ownership<E, B, L>, e: E, spare: B, l: L, keys: seq<Key>)
    requires o.Valid() && Admits(o, e, spare, l, keys)
    ensures Attached(o, e, spare, l, keys).Valid()
  {
    var p := Attached(o, e, spare, l, keys);
    AttachedClosed(o, e, spare, l, keys);
    forall m | m in p.leases ensures p.LeaseOk(m) {
      AttachedLeaseOk(o, e, spare, l, keys, m);
    }
    forall f | f in p.registry ensures p.SetOk(f) {
      AttachedSetOk(o, e, spare, l, keys, f);
    }
    forall m, n | m in p.leases && n in p.leases ensures p.Disjoint(m, n) {
      AttachedDisjoint(o, e, spare, l, keys, m, n);
    }
  }

  lemma AttachedClosed<E, B, L>(o: Ownership<E, B, L>, e: E, spare: B, l: L, keys: seq<Key>)
    requires o.Closed()
    ensures Attached(o, e, spare, l, keys).Closed()
  {
  }

  lemma AttachedLeaseOk<E, B, L>(o: Ownership<E, B, L>, e: E, spare: B, l: L, keys: seq<Key>, m: L)
    requires o.Valid() && Admits(o, e, spare, l, keys)
    requires Attached(o, e, spare, l, keys).Closed() && m in Attached(o, e, spare, l, keys).leases
    ensures Attached(o, e, spare, l, keys).LeaseOk(m)
  {
    if m != l { assert o.LeaseOk(m); }
  }

  lemma AttachedSetOk<E, B, L>(o: Ownership<E, B, L>, e: E, spare: B, l: L, keys: seq<Key>, f: E)
    requires o.Valid() && (e in o.registry || spare !in o.sets) && l !in o.leases
    requires Attached(o, e, spare, l, keys).Closed() && f in Attached(o, e, spare, l, keys).registry
    ensures Attached(o, e, spare, l, keys).SetOk(f)
  {
    var p := Attached(o, e, spare, l, keys);
    var s := p.registry[f];
    if f in o.registry { assert o.SetOk(f); }
    if e in o.registry { assert o.SetOk(e); }
    forall k | k in p.sets[s].owned ensures p.OwnedBySome(s, k) {
      if f == e && k in keys {
        assert l in p.sets[s].leases && k in p.leases[l].keys;
      } else {
        assert o.OwnedBySome(s, k);
        var m :| m in o.sets[s].leases && k in o.leases[m].keys;
        assert m in p.sets[s].leases && k in p.leases[m].keys;
      }
    }
  }

  lemma AttachedDisjoint<E, B, L>(o: Ownership<E, B, L>, e: E, spare: B, l: L, keys: seq<Key>, m: L, n: L)
    requires o.Valid() && Admits(o, e, spare, l, keys)
    requires m in Attached(o, e, spare, l, keys).leases && n in Attached(o, e, spare, l, keys).leases
    ensures Attached(o, e, spare, l, keys).Disjoint(m, n)
  {
    if m != l { assert o.LeaseOk(m); }
    if n != l { assert o.LeaseOk(n); }
    if m != l && n != l { assert o.Disjoint(m, n); }
  }

  lemma SwitchedKeepsValid<E, B, L>(o: Ownership<E, B, L>, l: L, next: seq<Key>)
    requires o.Valid() && l in o.leases && o.leases[l].active && Free(o, l, next) && Distinct(next)
    ensures Switched(o, l, next).Valid()
  {
    var p, x := Switched(o, l, next), o.leases[l];
    assert o.LeaseOk(l) && o.SetOk(x.element);
    forall m | m in p.leases ensures p.LeaseOk(m) {
      assert o.LeaseOk(m) && o.Disjoint(m, l);
    }
    forall e | e in p.registry ensures p.SetOk(e) {
      SwitchedSetOk(o, l, next, e);
    }
    forall m, n | m in p.leases && n in p.leases ensures p.Disjoint(m, n) {
      SwitchedDisjoint(o, l, next, m, n);
    }
  }

  lemma SwitchedSetOk<E, B, L>(o: Ownership<E, B, L>, l: L, next: seq<Key>, e: E)
    requires o.Valid() && l in o.leases && o.leases[l].active && Switched(o, l, next).Closed() && e in o.registry
    ensures Switched(o, l, next).SetOk(e)
  {
    var p, s := Switched(o, l, next), o.registry[e];
    assert o.SetOk(e) && o.LeaseOk(l);
    forall k | k in p.sets[s].owned ensures p.OwnedBySome(s, k) {
      if s == o.leases[l].bindingSet && k in next {
        assert l in p.sets[s].leases && k in p.leases[l].keys;
      } else {
        assert o.OwnedBySome(s, k);
        var m :| m in o.sets[s].leases && k in o.leases[m].keys;
        assert m in p.sets[s].leases && k in p.leases[m].keys;
      }
    }
  }

  lemma SwitchedDisjoint<E, B, L>(o: Ownership<E, B, L>, l: L, next: seq<Key>, m: L, n: L)
    requires o.Valid() && l in o.leases && o.leases[l].active && Free(o, l, next)
    requires m in o.leases && n in o.leases
    ensures Switched(o, l, next).Disjoint(m, n)
  {
    assert o.LeaseOk(l) && o.LeaseOk(m) && o.LeaseOk(n);
    assert o.Disjoint(m, n);
  }

  /// ------------------------------------------------------------ runs

  /** What a caller can do to the registry. A move whose check fails changes nothing: a conflicting
      attach or commit throws, and an inactive lease is inert. */
  datatype Move<E, B, L> =
    | Attach(element: E, spare: B, lease: L, keys: seq<Key>)
    | Commit(lease: L, next: seq<Key>)
    | Revoke(lease: L)

  function Take<E, B, L>(o: Ownership<E, B, L>, move: Move<E, B, L>): Ownership<E, B, L>
    requires o.Closed()
  {
    match move
    case Attach(e, spare, l, keys) =>
      if Admits(o, e, spare, l, keys) then Attached(o, e, spare, l, keys) else o
    case Commit(l, next) =>
      if l in o.leases && o.leases[l].active && Distinct(next) && Free(o, l, next) then Switched(o, l, next) else o
    case Revoke(l) =>
      if l in o.leases then Revoked(o, l) else o
  }

  lemma MoveKeepsValid<E, B, L>(o: Ownership<E, B, L>, move: Move<E, B, L>)
    requires o.Valid()
    ensures Take(o, move).Valid()
  {
    match move
    case Attach(e, spare, l, keys) =>
      if Admits(o, e, spare, l, keys) { AttachedKeepsValid(o, e, spare, l, keys); }
    case Commit(l, next) =>
      if l in o.leases && o.leases[l].active && Distinct(next) && Free(o, l, next) { SwitchedKeepsValid(o, l, next); }
    case Revoke(l) =>
      if l in o.leases { RevokedKeepsValid(o, l); }
  }

  ghost predicate IsRun<E, B, L>(states: seq<Ownership<E, B, L>>, moves: seq<Move<E, B, L>>) {
    && |states| == |moves| + 1
    && states[0] == Ownership(map[], map[], map[])
    && (forall i :: 0 <= i < |states| ==> states[i].Closed())
    && (forall i :: 0 <= i < |moves| ==> states[i+1] == Take(states[i], moves[i]))
  }

  /** From an empty registry, every state of every run is valid. */
  lemma {:induction false} RunsStayValid<E, B, L>(states: seq<Ownership<E, B, L>>, moves: seq<Move<E, B, L>>, i: nat)
    requires IsRun(states, moves) && i < |states|
    ensures states[i].Valid()
  {
    if i > 0 {
      RunsStayValid(states, moves, i - 1);
      MoveKeepsValid(states[i-1], moves[i-1]);
    }
  }

  /** A lease that has been revoked stays inactive: a stale handle cannot come back to life. */
  lemma {:induction false} RevokedStaysInactive<E, B, L>(states: seq<Ownership<E, B, L>>, moves: seq<Move<E, B, L>>,
                                                         l: L, i: nat, j: nat)
    requires IsRun(states, moves) && i <= j < |states|
    requires l in states[i].leases && !states[i].leases[l].active
    ensures l in states[j].leases && !states[j].leases[l].active
    decreases j - i
  {
    if i < j { RevokedStaysInactive(states, moves, l, i, j - 1); }
  }
}
