/** The sink itself: leases, binding sets, the registry and the style, changed in place. Every
    method is tied to the ownership step and the batch it performs. */
module OutputSink {
  import opened Results
  import opened Sequences
  import opened SinkBatch
  import opened SinkOwnership

  class Element {
    /// whether its style has the methods and the length that lossless reads and writes need
    const complete: bool
    var style: Style

    constructor (complete: bool, initial: Style)
      ensures this.complete == complete && style == initial
    {
      this.complete, style := complete, initial;
    }
  }

  /** The initial keys as the caller passes them: an iterable that starts over each time, or an
      iterator, which a second loop finds exhausted. */
  datatype Keys = Repeatable(keys: seq<Key>) | OneShot(keys: seq<Key>) {
    function Second(): seq<Key> { if Repeatable? then keys else [] }
  }

  class BindingSet {
    var leases: set<Lease>
    var ownedKeys: set<Key>
    var isWriting: bool

    constructor ()
      ensures leases == {} && ownedKeys == {} && !isWriting
    {
      leases, ownedKeys, isWriting := {}, {}, false;
    }
  }

  class Lease {
    const bindingSet: BindingSet
    const element: Element
    /// in insertion order, without duplicates
    var ownedKeys: seq<Key>
    var active: bool

    constructor (bindingSet: BindingSet, element: Element)
      ensures this.bindingSet == bindingSet && this.element == element && ownedKeys == [] && active
    {
      this.bindingSet, this.element := bindingSet, element;
      ownedKeys, active := [], true;
    }
  }

  /** The module state: the registry of elements that have a binding set. */
  class Sink {
    var registry: map<Element, BindingSet>
    /// the ownership state these objects stand for
    ghost var view: Ownership<Element, BindingSet, Lease>

    ghost predicate SetSynced(s: BindingSet)
      requires s in view.sets
      reads this, s
    {
      view.sets[s] == SetState(s.leases, s.ownedKeys)
    }

    ghost predicate LeaseSynced(l: Lease)
      requires l in view.leases
      reads this, l
    {
      view.leases[l] == LeaseState(l.element, l.bindingSet, l.ownedKeys, l.active)
    }

    /** The objects say what the view says. */
    ghost predicate Synced()
      reads this, view.sets.Keys, view.leases.Keys
    {
      && registry == view.registry
      && (forall s :: s in view.sets ==> SetSynced(s))
      && (forall l :: l in view.leases ==> LeaseSynced(l))
    }

    ghost predicate Valid()
      reads this, view.sets.Keys, view.leases.Keys
    {
      Synced() && view.Valid()
    }

    constructor ()
      ensures Valid() && view == Ownership(map[], map[], map[])
    {
      registry, view := map[], Ownership(map[], map[], map[]);
    }

    /** Attach a lease with its initial keys, or refuse with a typed error and leave no trace. The keys
        are read twice, once to check and once to register; an iterator passes the check and then
        registers nothing. */
    method Attach(target: Element?, initialKeys: Keys) returns (r: Result<Lease, SinkError>)
      requires Valid()
      modifies this, view.sets.Keys
      ensures Valid()
      ensures target == null || !target.complete ==> r == Err(BadTarget) && view == old(view)
      ensures target != null && target.complete && Conflicts(old(view), target, initialKeys.keys) ==>
        r == Err(LeaseConflict) && view == old(view)
      ensures target != null && target.complete && !Conflicts(old(view), target, initialKeys.keys) ==>
        && r.Ok? && fresh(r.value) && r.value.element == target
        && (target !in old(view).registry ==> !r.value.bindingSet.isWriting)
        && view == Attached(old(view), target, r.value.bindingSet, r.value, initialKeys.Second())
        && r.value.ownedKeys == Dedup(initialKeys.Second())
        && view == Take(old(view), Move.Attach(target, r.value.bindingSet, r.value, initialKeys.Second()))
      ensures forall s :: s in old(view).sets ==> s.isWriting == old(s.isWriting)
    {
      if target == null || !target.complete { return Err(BadTarget); }
      ghost var before := view;
      assert target in registry ==> view.SetOk(target) && SetSynced(registry[target]);
      r := Enrol(target, initialKeys);
      if r.Ok? {
        AttachedKeepsValid(before, target, r.value.bindingSet, r.value, initialKeys.Second());
        assert LeaseSynced(r.value);
      }
    }

    method Enrol(element: Element, initialKeys: Keys) returns (r: Result<Lease, SinkError>)
      requires Synced() && view.Reaches(element)
      requires element in registry ==> registry[element].leases != {}
      modifies this, if element in registry then {registry[element]} else {}
      ensures Synced()
      ensures r.Err? <==> Conflicts(old(view), element, initialKeys.keys)
      ensures r.Err? ==> r.error == LeaseConflict && view == old(view)
      ensures r.Ok? ==>
        && fresh(r.value) && r.value.element == element
        && (element !in old(view).registry ==> fresh(r.value.bindingSet) && !r.value.bindingSet.isWriting)
        && view == Attached(old(view), element, r.value.bindingSet, r.value, initialKeys.Second())
      ensures element in old(registry) ==> old(registry[element]).isWriting == old(registry[element].isWriting)
    {
      assert element in registry ==> SetSynced(registry[element]);
      r := Register(element, initialKeys);
      if r.Ok? { view := Attached(view, element, r.value.bindingSet, r.value, initialKeys.Second()); }
    }

    method Register(element: Element, initialKeys: Keys) returns (r: Result<Lease, SinkError>)
      requires element in registry ==> registry[element].leases != {}
      modifies `registry, if element in registry then {registry[element]} else {}
      ensures element in old(registry) ==> old(registry[element]).isWriting == old(registry[element].isWriting)
      ensures r.Err? <==>
        element in old(registry) && exists k :: k in initialKeys.keys && k in old(registry[element].ownedKeys)
      ensures r.Err? ==>
        && r.error == LeaseConflict && registry == old(registry)
        && registry[element].leases == old(registry[element].leases)
        && registry[element].ownedKeys == old(registry[element].ownedKeys)
      ensures r.Ok? ==>
        var l, s, keys := r.value, r.value.bindingSet, initialKeys.Second();
        && fresh(l) && l.element == element && l.active && l.ownedKeys == Dedup(keys)
        && registry == old(registry)[element := s]
        && (element in old(registry) ==>
              && s == old(registry)[element]
              && s.leases == old(registry[element].leases) + {l}
              && s.ownedKeys == old(registry[element].ownedKeys) + KeySet(keys))
        && (element !in old(registry) ==>
              fresh(s) && s.leases == {l} && s.ownedKeys == KeySet(keys) && !s.isWriting)
    {
      var bindingSet := FindSet(element);
      var lease := new Lease(bindingSet, element);
      bindingSet.leases := bindingSet.leases + {lease};
      var registered := RegisterKeys(lease, initialKeys);
      if !registered {
        Withdraw(lease);
        return Err(LeaseConflict);
      }
      r := Ok(lease);
    }

    /** Take a lease out of its set, and a set without leases out of the registry. */
    method Withdraw(lease: Lease)
      modifies `registry, lease.bindingSet`leases
      ensures lease.bindingSet.leases == old(lease.bindingSet.leases) - {lease}
      ensures registry == if lease.bindingSet.leases == {} then old(registry) - {lease.element} else old(registry)
    {
      lease.bindingSet.leases := lease.bindingSet.leases - {lease};
      if lease.bindingSet.leases == {} { registry := registry - {lease.element}; }
    }

    method FindSet(element: Element) returns (bindingSet: BindingSet)
      modifies `registry
      ensures registry == old(registry)[element := bindingSet]
      ensures element in old(registry) ==> bindingSet == old(registry)[element]
      ensures element !in old(registry) ==>
        fresh(bindingSet) && bindingSet.leases == {} && bindingSet.ownedKeys == {} && !bindingSet.isWriting
    {
      if element in registry {
        bindingSet := registry[element];
      } else {
        bindingSet := new BindingSet();
        registry := registry[element := bindingSet];
      }
    }

    method RegisterKeys(lease: Lease, keys: Keys) returns (registered: bool)
      modifies lease`ownedKeys, lease.bindingSet`ownedKeys
      ensures registered <==> !exists k :: k in keys.keys && k in old(lease.bindingSet.ownedKeys)
      ensures !registered ==>
        lease.ownedKeys == old(lease.ownedKeys) && lease.bindingSet.ownedKeys == old(lease.bindingSet.ownedKeys)
      ensures registered ==>
        && lease.ownedKeys == Dedup(keys.Second())
        && lease.bindingSet.ownedKeys == old(lease.bindingSet.ownedKeys) + KeySet(keys.Second())
    {
      if exists k :: k in keys.keys && k in lease.bindingSet.ownedKeys { return false; }
      lease.ownedKeys := Dedup(keys.Second());
      lease.bindingSet.ownedKeys := lease.bindingSet.ownedKeys + KeySet(keys.Second());
      registered := true;
    }

    lemma OwnedKeysAre(lease: Lease)
      requires Synced() && lease in view.leases
      ensures lease.ownedKeys == view.leases[lease].keys
    {
      assert LeaseSynced(lease);
    }

    static lemma RevokedKeepsKeys(o: Ownership<Element, BindingSet, Lease>, lease: Lease)
      requires o.Linked(lease)
      ensures Revoked(o, lease).leases[lease].keys == o.leases[lease].keys
    {
    }

    /** Off the registry, without touching the style. */
    method Unregister(lease: Lease)
      requires Synced() && view.Linked(lease) && lease.active
      modifies this, lease, lease.bindingSet
      ensures Synced() && view == Revoked(old(view), lease)
      ensures !lease.active && lease.bindingSet.isWriting == old(lease.bindingSet.isWriting)
      ensures lease.ownedKeys == old(lease.ownedKeys)
    {
      assert LeaseSynced(lease) && SetSynced(lease.bindingSet);
      lease.active := false;
      lease.bindingSet.ownedKeys := lease.bindingSet.ownedKeys - KeySet(lease.ownedKeys);
      Withdraw(lease);
      view := Revoked(view, lease);
    }

    method Deregister(lease: Lease)
      requires Valid() && lease in view.leases && lease.active
      modifies this, lease, lease.bindingSet
      ensures Valid() && view == Revoked(old(view), lease)
      ensures !lease.active && lease.bindingSet.isWriting == old(lease.bindingSet.isWriting)
      ensures lease.ownedKeys == old(lease.ownedKeys)
    {
      RevokedKeepsValid(view, lease);
      Unregister(lease);
    }

    /** Revoke a lease: its keys leave the style at once, unless a batch is being written, which
        then removes them itself. */
    method Revoke(lease: Lease, stuck: set<Key>)
      requires Valid() && lease in view.leases
      modifies this, lease, lease.bindingSet, lease.element
      ensures Valid() && view == Revoked(old(view), lease) == Take(old(view), Move.Revoke(lease))
      ensures !lease.active && lease.bindingSet.isWriting == old(lease.bindingSet.isWriting)
      ensures lease.element.style ==
        if !old(lease.active) || old(lease.bindingSet.isWriting) then old(lease.element.style)
        else old(lease.element.style) - (KeySet(old(lease.ownedKeys)) - stuck)
    {
      assert LeaseSynced(lease);
      if !lease.active { return; }
      Deregister(lease);
      if !lease.bindingSet.isWriting { Clear(lease.element, lease.ownedKeys, stuck); }
    }

    /** Removal of keys from a style, which is no part of the ownership state. */
    method Clear(element: Element, keys: seq<Key>, stuck: set<Key>)
      requires Valid()
      modifies element
      ensures Valid() && element.style == old(element.style) - (KeySet(keys) - stuck)
    {
      RemoveAll(element, keys, stuck);
    }

    /** Best-effort removal: a call that throws does not stop the others. */
    method RemoveAll(element: Element, keys: seq<Key>, stuck: set<Key>)
      modifies element
      ensures element.style == old(element.style) - (KeySet(keys) - stuck)
    {
      for i := 0 to |keys|
        invariant element.style == old(element.style) - (KeySet(keys[..i]) - stuck)
      {
        assert KeySet(keys[..i+1]) == KeySet(keys[..i]) + {keys[i]};
        if keys[i] !in stuck {
          element.style := element.style - {keys[i]};
        }
      }
      assert keys[..|keys|] == keys;
    }

    /** Best-effort rollback to the snapshot taken before the batch. */
    method RestoreAll(element: Element, before: Style, keys: seq<Key>, stuck: set<Key>)
      requires Coherent(before, keys)
      modifies element
      ensures element.style == Restored(old(element.style), before, KeySet(keys) - stuck)
    {
      RestoredNone(element.style, before);
      assert KeySet(keys[..0]) - stuck == {};
      for i := 0 to |keys|
        invariant element.style == Restored(old(element.style), before, KeySet(keys[..i]) - stuck)
      {
        assert KeySet(keys[..i+1]) == KeySet(keys[..i]) + {keys[i]};
        if keys[i] !in stuck {
          assert KeySet(keys[..i+1]) - stuck == KeySet(keys[..i]) - stuck + {keys[i]};
          RestoredOneMore(old(element.style), before, KeySet(keys[..i]) - stuck, keys[i]);
          if keys[i] in before {
            var prior := before[keys[i]];
            element.style := SetProperty(element.style, keys[i], prior.value, prior.important);
          } else {
            element.style := element.style - {keys[i]};
          }
        } else {
          assert KeySet(keys[..i+1]) - stuck == KeySet(keys[..i]) - stuck;
        }
      }
      assert keys[..|keys|] == keys;
    }

    static lemma RestoredNone(style: Style, before: Style)
      ensures Restored(style, before, {}) == style
    {
    }

    static lemma RestoredOneMore(style: Style, before: Style, keys: set<Key>, key: Key)
      requires key in before ==> before[key].value != ""
      ensures Restored(style, before, keys + {key}) ==
        if key in before then SetProperty(Restored(style, before, keys), key, before[key].value, before[key].important)
        else Restored(style, before, keys) - {key}
    {
    }

    /** Style and write lock are no part of the ownership state. */
    method SetStyle(element: Element, style: Style)
      requires Valid()
      modifies element
      ensures Valid() && element.style == style
    {
      element.style := style;
    }

    method SetWriting(bindingSet: BindingSet, isWriting: bool)
      requires Valid()
      modifies bindingSet`isWriting
      ensures Valid() && bindingSet.isWriting == isWriting
    {
      bindingSet.isWriting := isWriting;
    }

    /** One round of the try block; a lease revoked before the batch never finishes it. */
    method WriteKey(lease: Lease, key: Key, action: Action, step: Step) returns (stop: Stop)
      requires Valid() && lease in view.leases && lease.bindingSet.isWriting
      modifies this, lease, lease.bindingSet, lease.element
      ensures Valid() && lease.bindingSet.isWriting
      ensures Progress(lease.element.style, stop, !lease.active) ==
              OneStep(old(lease.element.style), key, action, step, old(lease.active))
      ensures stop == Finished ==> old(lease.active) && lease.active && view == old(view)
      ensures view == if old(lease.active) && !lease.active then Revoked(old(view), lease) else old(view)
    {
      ghost var before, entered := lease.element.style, lease.active;
      if step.aborted { return Raised(Aborted); }
      Callback(lease, step.ownsRevokes);
      if step.owns == Throws { return Raised(OwnsThrew); }
      if step.owns == No { return LostOwnership; }
      stop := CallStyle(lease, key, action, step);
      if stop == Finished && !lease.active { stop := Raised(RevokedMidBatch); }
      OneStepIs(before, key, action, step, entered, lease.element.style, stop, !lease.active);
    }

    /** The style call itself, with the fault and the revocation it may bring. */
    method CallStyle(lease: Lease, key: Key, action: Action, step: Step) returns (stop: Stop)
      requires Valid() && lease in view.leases && lease.bindingSet.isWriting
      modifies this, lease, lease.bindingSet, lease.element
      ensures Valid() && lease.bindingSet.isWriting
      ensures lease.active == (old(lease.active) && !(action != Skip && step.callRevokes))
      ensures view == if old(lease.active) && !lease.active then Revoked(old(view), lease) else old(view)
      ensures stop == if action != Skip && step.fault != NoFault then Raised(StyleThrew) else Finished
      ensures lease.element.style ==
        if action != Skip && step.fault == ThrowBefore then old(lease.element.style)
        else Apply(old(lease.element.style), key, action)
    {
      Callback(lease, action != Skip && step.callRevokes);
      stop := Call(lease.element, key, action, step.fault);
    }

    method Call(element: Element, key: Key, action: Action, fault: Fault) returns (stop: Stop)
      requires Valid()
      modifies element
      ensures Valid()
      ensures stop == if action != Skip && fault != NoFault then Raised(StyleThrew) else Finished
      ensures element.style ==
        if action != Skip && fault == ThrowBefore then old(element.style) else Apply(old(element.style), key, action)
    {
      if action == Skip { return Finished; }
      if fault == ThrowBefore { return Raised(StyleThrew); }
      SetStyle(element, Apply(element.style, key, action));
      stop := if fault == ThrowAfter then Raised(StyleThrew) else Finished;
    }

    /** A call out of the batch that may revoke the lease; harmless when the lease is gone already. */
    method Callback(lease: Lease, revokes: bool)
      requires Valid() && lease in view.leases && lease.bindingSet.isWriting
      modifies this, lease, lease.bindingSet, lease.element
      ensures Valid() && lease.bindingSet.isWriting
      ensures lease.active == (old(lease.active) && !revokes)
      ensures lease.element.style == old(lease.element.style)
      ensures view == if old(lease.active) && revokes then Revoked(old(view), lease) else old(view)
    {
      assert LeaseSynced(lease);
      if revokes { Revoke(lease, {}); }
    }

    /** The same round as a step of the try block. */
    method WriteNext(lease: Lease, keys: seq<Key>, actions: map<Key, Action>, env: Env, i: nat) returns (stop: Stop)
      requires Valid() && lease in view.leases && lease.bindingSet.isWriting
      requires i < |keys| && forall k :: k in keys ==> k in actions
      requires lease.active == !env.ownsRevokesAtStart
      modifies this, lease, lease.bindingSet, lease.element
      ensures Valid() && lease.bindingSet.isWriting
      ensures stop == Finished ==> old(lease.active) && lease.active && view == old(view)
      ensures Forward(old(lease.element.style), keys, actions, env, i) ==
              if stop == Finished then Forward(lease.element.style, keys, actions, env, i + 1)
              else Progress(lease.element.style, stop, !lease.active)
      ensures view == if old(lease.active) && !lease.active then Revoked(old(view), lease) else old(view)
    {
      stop := WriteKey(lease, keys[i], actions[keys[i]], env.At(i));
    }

    /** The try block: stops at the first failure, or runs through all keys. */
    method WriteKeys(lease: Lease, keys: seq<Key>, actions: map<Key, Action>, env: Env) returns (stop: Stop)
      requires Valid() && lease in view.leases && lease.bindingSet.isWriting
      requires lease.active == !env.ownsRevokesAtStart && forall k :: k in keys ==> k in actions
      modifies this, lease, lease.bindingSet, lease.element
      ensures Valid() && lease.bindingSet.isWriting
      ensures Forward(old(lease.element.style), keys, actions, env, 0) ==
        Progress(lease.element.style, stop, !lease.active)
      ensures view == if old(lease.active) && !lease.active then Revoked(old(view), lease) else old(view)
    {
      ghost var result := Forward(lease.element.style, keys, actions, env, 0);
      for i := 0 to |keys|
        invariant Valid() && view == old(view) && lease.bindingSet.isWriting
        invariant lease.active == old(lease.active) && (i == 0 || lease.active)
        invariant Forward(lease.element.style, keys, actions, env, i) == result
      {
        stop := WriteNext(lease, keys, actions, env, i);
        if stop != Finished { return; }
      }
      stop := Finished;
    }

    /** The catch block, whose restoring calls may still revoke the lease. */
    method CleanUp(lease: Lease, previous: Style, keys: seq<Key>, env: Env)
      requires Valid() && lease in view.leases && lease.bindingSet.isWriting && Coherent(previous, keys)
      modifies this, lease, lease.bindingSet, lease.element
      ensures Valid() && lease.bindingSet.isWriting
      ensures lease.element.style ==
        if old(lease.active) then Restored(old(lease.element.style), previous, KeySet(keys) - env.stuck)
        else old(lease.element.style) - (KeySet(keys) - env.stuck)
      ensures lease.active == (old(lease.active) && !env.rollbackRevokes)
      ensures view == if old(lease.active) && !lease.active then Revoked(old(view), lease) else old(view)
    {
      if !lease.active {
        Clear(lease.element, keys, env.stuck);
      } else {
        RollBack(lease.element, previous, keys, env.stuck);
        Callback(lease, env.rollbackRevokes);
      }
    }

    method RollBack(element: Element, before: Style, keys: seq<Key>, stuck: set<Key>)
      requires Valid() && Coherent(before, keys)
      modifies element
      ensures Valid() && element.style == Restored(old(element.style), before, KeySet(keys) - stuck)
    {
      RestoreAll(element, before, keys, stuck);
    }

    /** The first ownership callback comes before the write lock is taken. */
    method AskOwner(lease: Lease, env: Env)
      requires Valid() && lease in view.leases && lease.active && !lease.bindingSet.isWriting
      modifies this, lease, lease.bindingSet, lease.element
      ensures Valid() && !lease.bindingSet.isWriting
      ensures lease.active == !env.ownsRevokesAtStart
      ensures lease.element.style == Begun(old(lease.element.style), old(lease.ownedKeys), env)
      ensures view == if lease.active then old(view) else Revoked(old(view), lease)
    {
      if env.ownsRevokesAtStart { Revoke(lease, env.stuck); }
    }

    /** One batch: ask, snapshot, write, and on failure roll back or clean up. */
    method RunBatch(lease: Lease, keys: seq<Key>, actions: map<Key, Action>, env: Env) returns (outcome: Outcome)
      requires Valid() && lease in view.leases && lease.active
      requires forall k :: k in keys ==> k in actions
      modifies this, lease, lease.bindingSet, lease.element
      ensures Valid() && lease.bindingSet.isWriting == old(lease.bindingSet.isWriting)
      ensures old(lease.bindingSet.isWriting) ==>
        && outcome == Thrown(if env.abortedAtStart then Aborted else Reentrant)
        && view == old(view) && lease.element.style == old(lease.element.style) && lease.active
      ensures !old(lease.bindingSet.isWriting) ==>
        var b := SinkBatch.RunBatch(old(lease.element.style), old(lease.ownedKeys), keys, actions, env);
        && outcome == b.outcome && lease.element.style == b.style && lease.active == !b.Revoked()
        && view == if b.Revoked() then Revoked(old(view), lease) else old(view)
    {
      if env.abortedAtStart { return Thrown(Aborted); }
      if lease.bindingSet.isWriting { return Thrown(Reentrant); }
      AskOwner(lease, env);
      if env.ownsAtStart == Throws { return Thrown(OwnsThrew); }
      if env.ownsAtStart == No { return Returned(false); }
      if env.snapshotFails || !Coherent(lease.element.style, keys) { return Thrown(Incoherent); }
      var stop := WriteLocked(lease, keys, actions, env);
      outcome := OutcomeOf(stop);
    }

    /** The part of a batch that holds the write lock. */
    method WriteLocked(lease: Lease, keys: seq<Key>, actions: map<Key, Action>, env: Env) returns (stop: Stop)
      requires Valid() && lease in view.leases && !lease.bindingSet.isWriting
      requires lease.active == !env.ownsRevokesAtStart && forall k :: k in keys ==> k in actions
      requires Coherent(lease.element.style, keys)
      modifies this, lease, lease.bindingSet, lease.element
      ensures Valid() && !lease.bindingSet.isWriting
      ensures var p := Forward(old(lease.element.style), keys, actions, env, 0);
        && stop == p.stop && lease.active == (RevocationOf(p, env) == Never)
        && lease.element.style == Settle(old(lease.element.style), p, keys, env.stuck)
      ensures view == if old(lease.active) && !lease.active then Revoked(old(view), lease) else old(view)
    {
      SetWriting(lease.bindingSet, true);
      stop := WriteOrCleanUp(lease, keys, actions, env);
      SetWriting(lease.bindingSet, false);
    }

    method WriteOrCleanUp(lease: Lease, keys: seq<Key>, actions: map<Key, Action>, env: Env) returns (stop: Stop)
      requires Valid() && lease in view.leases && lease.bindingSet.isWriting
      requires lease.active == !env.ownsRevokesAtStart && forall k :: k in keys ==> k in actions
      requires Coherent(lease.element.style, keys)
      modifies this, lease, lease.bindingSet, lease.element
      ensures Valid() && lease.bindingSet.isWriting
      ensures var p := Forward(old(lease.element.style), keys, actions, env, 0);
        && stop == p.stop && lease.active == (RevocationOf(p, env) == Never)
        && lease.element.style == Settle(old(lease.element.style), p, keys, env.stuck)
      ensures view == if old(lease.active) && !lease.active then Revoked(old(view), lease) else old(view)
    {
      var previous := lease.element.style;
      stop := WriteKeys(lease, keys, actions, env);
      ForwardFinished(previous, keys, actions, env, 0);
      if stop != Finished { CleanUp(lease, previous, keys, env); }
    }

    /** The first thing wrong with a commit's values, in key order. */
    static function FirstProblem(next: Vars, keys: seq<Key>, mine: seq<Key>, taken: set<Key>): Option<SinkError>
      requires forall k :: k in keys ==> k in next.values
    {
      if keys == [] then None
      else if next.values[keys[0]].NonString? then Some(NotAString)
      else if keys[0] !in mine && keys[0] in taken then Some(LeaseConflict)
      else FirstProblem(next, keys[1..], mine, taken)
    }

    static lemma {:induction false} NoProblem(next: Vars, keys: seq<Key>, mine: seq<Key>, taken: set<Key>)
      requires forall k :: k in keys ==> k in next.values
      ensures FirstProblem(next, keys, mine, taken) == None <==>
              forall k :: k in keys ==> next.values[k].Str? && (k in taken ==> k in mine)
    {
      if keys != [] {
        NoProblem(next, keys[1..], mine, taken);
        assert keys == [keys[0]] + keys[1..];
      }
    }

    /** The error is that of the first bad key: of its value, or else of its owner. */
    static lemma {:induction false} ProblemIsFirst(next: Vars, keys: seq<Key>, mine: seq<Key>, taken: set<Key>, i: nat)
      requires (forall k :: k in keys ==> k in next.values) && i < |keys|
      requires forall j :: 0 <= j < i ==> next.values[keys[j]].Str? && (keys[j] in taken ==> keys[j] in mine)
      ensures next.values[keys[i]].NonString? ==> FirstProblem(next, keys, mine, taken) == Some(NotAString)
      ensures next.values[keys[i]].Str? && keys[i] in taken && keys[i] !in mine ==>
        FirstProblem(next, keys, mine, taken) == Some(LeaseConflict)
    {
      if i > 0 { ProblemIsFirst(next, keys[1..], mine, taken, i - 1); }
    }

    /** Ownership moves over to the next keys. */
    method SwitchKeys(lease: Lease, next: seq<Key>)
      requires Synced() && view.Linked(lease)
      modifies this, lease, lease.bindingSet
      ensures Synced() && view == Switched(old(view), lease, next)
      ensures lease.active == old(lease.active) && lease.bindingSet.isWriting == old(lease.bindingSet.isWriting)
      ensures lease.ownedKeys == next
    {
      assert LeaseSynced(lease) && SetSynced(lease.bindingSet);
      var dropped := KeySet(lease.ownedKeys) - KeySet(next);
      lease.bindingSet.ownedKeys := lease.bindingSet.ownedKeys - dropped + KeySet(next);
      lease.ownedKeys := next;
      view := Switched(view, lease, next);
    }

    /** Every key the commit touches: what the lease owned, then what is new. */
    static function BatchKeys(owned: seq<Key>, next: Vars): seq<Key> { Dedup(owned + next.keys) }

    /** Commit a full snapshot. Nothing moves before the checks pass; ownership moves only with a
        completed batch, and goes with the lease when it is revoked on the way. */
    method Commit(lease: Lease, next: Vars, diffFrom: Option<map<Key, string>>, env: Env) returns (outcome: Outcome)
      requires Valid() && lease in view.leases && next.Ok()
      modifies this, lease, lease.bindingSet, lease.element
      ensures Valid() && lease.bindingSet.isWriting == old(lease.bindingSet.isWriting)
      ensures !old(lease.active) ==>
        outcome == Returned(false) && view == old(view) && lease.element.style == old(lease.element.style)
      ensures old(lease.active) ==>
        var problem := FirstProblem(next, next.keys, old(lease.ownedKeys), old(lease.bindingSet.ownedKeys));
        var keys := BatchKeys(old(lease.ownedKeys), next);
        var b := SinkBatch.RunBatch(old(lease.element.style), old(lease.ownedKeys), keys,
                                    CommitActions(keys, next, diffFrom), env);
        && (problem.Some? ==>
              outcome == Thrown(problem.value) && view == old(view) && lease.element.style == old(lease.element.style))
        && (problem == None && old(lease.bindingSet.isWriting) ==>
              && outcome == Thrown(if env.abortedAtStart then Aborted else Reentrant)
              && view == old(view) && lease.element.style == old(lease.element.style))
        && (problem == None && !old(lease.bindingSet.isWriting) ==>
              && outcome == b.outcome && lease.element.style == b.style
              && view == Committed(old(view), lease, next.keys, b))
      ensures outcome == Returned(true) ==>
        CommitDone(old(lease.element.style), lease.element.style, old(lease.ownedKeys), next, diffFrom)
      ensures lease.ownedKeys == if outcome == Returned(true) then next.keys else old(lease.ownedKeys)
      ensures IsMove(old(view), view, lease, next.keys)
    {
      if !lease.active { return Returned(false); }
      assert LeaseSynced(lease) && SetSynced(lease.bindingSet);
      var problem := FirstProblem(next, next.keys, lease.ownedKeys, lease.bindingSet.ownedKeys);
      if problem.Some? { return Thrown(problem.value); }
      NoProblem(next, next.keys, lease.ownedKeys, lease.bindingSet.ownedKeys);
      var keys := BatchKeys(lease.ownedKeys, next);
      CompletedIsDone(lease.element.style, lease.ownedKeys, next, diffFrom, env);
      CommitIsMove(view, lease, next.keys);
      outcome := BatchThenSwitch(lease, keys, CommitActions(keys, next, diffFrom), next.keys, env);
    }

    static lemma CompletedIsDone(style: Style, owned: seq<Key>, next: Vars, diffFrom: Option<map<Key, string>>,
                                 env: Env)
      requires next.Ok() && forall k :: k in next.keys ==> next.values[k].Str?
      ensures var keys := BatchKeys(owned, next);
              var b := SinkBatch.RunBatch(style, owned, keys, CommitActions(keys, next, diffFrom), env);
              b.outcome == Returned(true) ==> CommitDone(style, b.style, owned, next, diffFrom)
    {
      var keys := BatchKeys(owned, next);
      if SinkBatch.RunBatch(style, owned, keys, CommitActions(keys, next, diffFrom), env).outcome == Returned(true) {
        CommitIsDone(style, owned, keys, next, diffFrom, env);
      }
    }

    /** A commit is no move, or one of two. */
    static ghost predicate IsMove(o: Ownership<Element, BindingSet, Lease>, p: Ownership<Element, BindingSet, Lease>,
                                  lease: Lease, next: seq<Key>)
      requires o.Closed()
    {
      p == o || p == Take(o, Move.Commit(lease, next)) || p == Take(o, Move.Revoke(lease))
    }

    static lemma CommitIsMove(o: Ownership<Element, BindingSet, Lease>, lease: Lease, next: seq<Key>)
      requires o.Closed() && lease in o.leases && o.leases[lease].active && Distinct(next) && Free(o, lease, next)
      ensures IsMove(o, Switched(o, lease, next), lease, next) && IsMove(o, Revoked(o, lease), lease, next)
    {
    }

    /** Ownership after a commit that reached its batch. */
    ghost function Committed(o: Ownership<Element, BindingSet, Lease>, lease: Lease, next: seq<Key>, b: BatchResult)
      : Ownership<Element, BindingSet, Lease>
      requires o.Linked(lease)
    {
      if b.Revoked() then Revoked(o, lease) else if b.outcome == Returned(true) then Switched(o, lease, next) else o
    }

    /** A batch that hands the lease its next keys when it completes. */
    method BatchThenSwitch(lease: Lease, keys: seq<Key>, actions: map<Key, Action>, next: seq<Key>, env: Env)
      returns (outcome: Outcome)
      requires Valid() && lease in view.leases && lease.active
      requires Distinct(next) && Free(view, lease, next) && forall k :: k in keys ==> k in actions
      requires forall k :: k in lease.ownedKeys || k in next ==> k in keys
      modifies this, lease, lease.bindingSet, lease.element
      ensures Valid() && lease.bindingSet.isWriting == old(lease.bindingSet.isWriting)
      ensures old(lease.bindingSet.isWriting) ==>
        && outcome == Thrown(if env.abortedAtStart then Aborted else Reentrant)
        && view == old(view) && lease.element.style == old(lease.element.style)
      ensures !old(lease.bindingSet.isWriting) ==>
        var b := SinkBatch.RunBatch(old(lease.element.style), old(lease.ownedKeys), keys, actions, env);
        && outcome == b.outcome && lease.element.style == b.style
        && view == Committed(old(view), lease, next, b)
      ensures lease.ownedKeys == if outcome == Returned(true) then next else old(lease.ownedKeys)
    {
      OwnedKeysAre(lease);
      RevokedKeepsKeys(view, lease);
      ReadyToSwitch(view, lease, lease.element.style, keys, actions, next, env);
      outcome := RunBatch(lease, keys, actions, env);
      OwnedKeysAre(lease);
      HandOver(lease, next, outcome == Returned(true));
    }

    /** After a completed batch the lease may take over its next keys: it is active still, or there
        are no keys, old or new. */
    static lemma ReadyToSwitch(o: Ownership<Element, BindingSet, Lease>, lease: Lease, style: Style, keys: seq<Key>,
                               actions: map<Key, Action>, next: seq<Key>, env: Env)
      requires o.Linked(lease) && forall k :: k in keys ==> k in actions
      requires forall k :: k in o.leases[lease].keys || k in next ==> k in keys
      ensures var b := SinkBatch.RunBatch(style, o.leases[lease].keys, keys, actions, env);
              b.outcome == Returned(true) && b.Revoked() ==> next == [] && o.leases[lease].keys == []
    {
      var owned := o.leases[lease].keys;
      ForwardFinished(Begun(style, owned, env), keys, actions, env, 0);
      NoneOrSome(next);
      NoneOrSome(owned);
    }

    static lemma NoneOrSome(keys: seq<Key>)
      ensures keys == [] || exists k :: k in keys
    {
      if keys != [] { assert keys[0] in keys; }
    }

    /** The switch after a completed batch. A lease revoked by then has no keys, old or new. */
    method HandOver(lease: Lease, next: seq<Key>, completed: bool)
      requires Valid() && lease in view.leases
      requires completed && lease.active ==> Distinct(next) && Free(view, lease, next)
      requires completed && !lease.active ==> next == [] && lease.ownedKeys == []
      modifies this, lease, lease.bindingSet
      ensures Valid() && lease.bindingSet.isWriting == old(lease.bindingSet.isWriting)
      ensures view == if completed && old(lease.active) then Switched(old(view), lease, next) else old(view)
      ensures lease.ownedKeys == if completed then next else old(lease.ownedKeys)
    {
      if !completed { return; }
      assert LeaseSynced(lease);
      if lease.active { SwitchedKeepsValid(view, lease, next); } else { SwitchedToNothing(view, lease, next); }
      SwitchKeys(lease, next);
    }

    static lemma SwitchedToNothing(o: Ownership<Element, BindingSet, Lease>, lease: Lease, next: seq<Key>)
      requires o.Linked(lease) && o.leases[lease].keys == [] && next == []
      ensures Switched(o, lease, next) == o
    {
      var s := o.leases[lease].bindingSet;
      var p := Switched(o, lease, next);
      assert p.sets[s].owned == o.sets[s].owned;
      assert p.sets == o.sets && p.leases == o.leases;
    }

    /** Patch some owned keys; ownership does not change unless the lease is revoked on the way. */
    method Patch(lease: Lease, partial: Vars, env: Env) returns (outcome: Outcome)
      requires Valid() && lease in view.leases && partial.Ok()
      modifies this, lease, lease.bindingSet, lease.element
      ensures Valid() && lease.bindingSet.isWriting == old(lease.bindingSet.isWriting)
      ensures !old(lease.active) ==>
        outcome == Returned(false) && view == old(view) && lease.element.style == old(lease.element.style)
      ensures old(lease.active) && (exists k :: k in partial.keys && k !in old(lease.ownedKeys)) ==>
        outcome == Thrown(NotOwned) && view == old(view) && lease.element.style == old(lease.element.style)
      ensures old(lease.active) && (forall k :: k in partial.keys ==> k in old(lease.ownedKeys)) ==>
        var b := SinkBatch.RunBatch(old(lease.element.style), old(lease.ownedKeys), partial.keys,
                                    PatchActions(partial), env);
        && (old(lease.bindingSet.isWriting) ==>
              && outcome == Thrown(if env.abortedAtStart then Aborted else Reentrant)
              && view == old(view) && lease.element.style == old(lease.element.style))
        && (!old(lease.bindingSet.isWriting) ==>
              && outcome == b.outcome && lease.element.style == b.style
              && view == if b.Revoked() then Revoked(old(view), lease) else old(view))
      ensures outcome == Returned(true) && lease.active ==>
        PatchDone(old(lease.element.style), lease.element.style, partial)
      ensures lease.ownedKeys == old(lease.ownedKeys)
    {
      if !lease.active { return Returned(false); }
      if exists k :: k in partial.keys && k !in lease.ownedKeys { return Thrown(NotOwned); }
      PatchedIsDone(lease.element.style, lease.ownedKeys, partial, env);
      OwnedKeysAre(lease);
      RevokedKeepsKeys(view, lease);
      outcome := RunBatch(lease, partial.keys, PatchActions(partial), env);
      OwnedKeysAre(lease);
    }

    static lemma PatchedIsDone(style: Style, owned: seq<Key>, partial: Vars, env: Env)
      requires partial.Ok() && forall k :: k in partial.keys ==> k in owned
      ensures var b := SinkBatch.RunBatch(style, owned, partial.keys, PatchActions(partial), env);
              b.outcome == Returned(true) && !b.Revoked() ==> PatchDone(style, b.style, partial)
    {
      var b := SinkBatch.RunBatch(style, owned, partial.keys, PatchActions(partial), env);
      if b.outcome == Returned(true) && !b.Revoked() { PatchIsDone(style, owned, partial, env); }
    }
  }

  /** A lease owns the whole initial set exactly when the keys can be read twice, or there are none. */
  lemma OwnsAllIff(keys: Keys)
    ensures (forall k :: k in keys.keys ==> k in Dedup(keys.Second())) <==> keys.Repeatable? || keys.keys == []
  {
    if keys.OneShot? && keys.keys != [] {
      assert keys.keys[0] in keys.keys && Dedup([]) == [];
    }
  }

  /** The attach that shows the difference: an iterator over one free key, and a lease without keys. */
  method IteratorAttachOwnsNothing() returns (r: Result<Lease, SinkError>)
    ensures r.Ok? && r.value.ownedKeys == []
  {
    var sink := new Sink();
    var element := new Element(true, map[]);
    r := sink.Attach(element, OneShot([FIRST]));
  }
}
