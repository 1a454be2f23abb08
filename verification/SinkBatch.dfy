/** One batch of style writes as the transactional sink runs it: what can go wrong at each key,
    and the style it leaves behind. */
module SinkBatch {
  import opened Results
  import opened Sequences

  /// A property name; only equality of names matters here.
  datatype Key = Key(name: string)

  datatype Entry = Entry(value: string, important: bool)

  /// Declarations present on an element, by property name.
  type Style = map<Key, Entry>

  /** Setting the empty string removes the declaration, as CSSOM has it. */
  function SetProperty(style: Style, key: Key, value: string, important: bool): Style {
    if value == "" then style - {key} else style[key := Entry(value, important)]
  }

  /** What the batch does with one key. */
  datatype Action = Skip | Write(value: string) | Erase

  function Apply(style: Style, key: Key, action: Action): Style {
    match action
    case Skip => style
    case Write(value) => SetProperty(style, key, value, false)
    case Erase => style - {key}
  }

  datatype Fault = NoFault | ThrowBefore | ThrowAfter

  /** What the ownership callback does. */
  datatype Reply = Yes | No | Throws

  /** What the outside world does at one key: the signal, the ownership callback (which may revoke
      the lease), and the style call (which may throw on either side of its effect, or revoke). */
  datatype Step = Step(aborted: bool, owns: Reply, ownsRevokes: bool, fault: Fault, callRevokes: bool)

  const QUIET := Step(false, Yes, false, NoFault, false)

  /** The whole environment of one call: the first signal and ownership callback, the snapshot, the
      rounds, and the rollback, during which the lease may be revoked. Keys in stuck are those whose
      cleaning-up call throws without effect; the sink swallows that. */
  datatype Env = Env(abortedAtStart: bool, ownsAtStart: Reply, ownsRevokesAtStart: bool, snapshotFails: bool,
                     steps: seq<Step>, stuck: set<Key>, rollbackRevokes: bool)
  {
    function At(i: nat): Step { if i < |steps| then steps[i] else QUIET }
  }

  datatype SinkError =
    | BadTarget | LeaseConflict | NotAString | NotOwned | Aborted | Reentrant | Incoherent
    | OwnsThrew | StyleThrew | RevokedMidBatch

  datatype Outcome = Returned(done: bool) | Thrown(error: SinkError)

  datatype Stop = Finished | LostOwnership | Raised(error: SinkError)

  datatype Progress = Progress(style: Style, stop: Stop, revoked: bool)

  /** One round of the try block; active says whether the lease is when the round begins. */
  function OneStep(style: Style, key: Key, action: Action, step: Step, active: bool): Progress {
    var touches := action != Skip;
    var asked := !active || step.ownsRevokes;
    var revoked := asked || (touches && step.callRevokes);
    var after := Apply(style, key, action);
    if step.aborted then Progress(style, Raised(Aborted), !active)
    else if step.owns == Throws then Progress(style, Raised(OwnsThrew), asked)
    else if step.owns == No then Progress(style, LostOwnership, asked)
    else if touches && step.fault == ThrowBefore then Progress(style, Raised(StyleThrew), revoked)
    else if touches && step.fault == ThrowAfter then Progress(after, Raised(StyleThrew), revoked)
    else if revoked then Progress(after, Raised(RevokedMidBatch), true)
    else Progress(after, Finished, false)
  }

  /** The same round, read off its effects. */
  lemma OneStepIs(style: Style, key: Key, action: Action, step: Step, active: bool, after: Style, stop: Stop,
                  revoked: bool)
    requires !step.aborted && step.owns == Yes
    requires revoked == (!active || step.ownsRevokes || (action != Skip && step.callRevokes))
    requires after == if action != Skip && step.fault == ThrowBefore then style else Apply(style, key, action)
    requires stop == if action != Skip && step.fault != NoFault then Raised(StyleThrew)
                     else if revoked then Raised(RevokedMidBatch) else Finished
    ensures OneStep(style, key, action, step, active) == Progress(after, stop, revoked)
  {
  }

  /** The try block from key i on. A lease revoked before it gets no further than its first key. */
  function Forward(style: Style, keys: seq<Key>, actions: map<Key, Action>, env: Env, i: nat): Progress
    requires i <= |keys| && forall k :: k in keys ==> k in actions
    decreases |keys| - i
  {
    if i == |keys| then Progress(style, Finished, env.ownsRevokesAtStart)
    else
      var p := OneStep(style, keys[i], actions[keys[i]], env.At(i), !env.ownsRevokesAtStart);
      if p.stop != Finished then p else Forward(p.style, keys, actions, env, i + 1)
  }

  function KeySet(keys: seq<Key>): set<Key> { set k | k in keys }

  /** Rollback: the given keys go back to what they were before. */
  function Restored(style: Style, before: Style, keys: set<Key>): Style {
    map k | k in style.Keys + before.Keys && (if k in keys then k in before else k in style)
      :: if k in keys then before[k] else style[k]
  }

  /** The catch block: an active lease is rolled back, a revoked one loses the batch keys. */
  function Settle(before: Style, p: Progress, keys: seq<Key>, stuck: set<Key>): Style {
    if p.stop == Finished then p.style
    else if p.revoked then p.style - (KeySet(keys) - stuck)
    else Restored(p.style, before, KeySet(keys) - stuck)
  }

  function OutcomeOf(stop: Stop): Outcome {
    match stop
    case Finished => Returned(true)
    case LostOwnership => Returned(false)
    case Raised(error) => Thrown(error)
  }

  /** No key of the batch is declared with an empty value, which a rollback could not restore. */
  predicate Coherent(style: Style, keys: seq<Key>) {
    forall k :: k in keys && k in style ==> style[k].value != ""
  }

  /** When the lease was revoked, if it was: by the first ownership callback, inside the try block,
      or by a restoring call. */
  datatype Revocation = Never | AtStart | Midway | InRollback

  datatype BatchResult = BatchResult(style: Style, outcome: Outcome, revocation: Revocation) {
    predicate Revoked() { revocation != Never }
  }

  /** The style after the first ownership callback: a lease it revokes loses its keys at once, as no
      batch is being written yet. */
  function Begun(style: Style, owned: seq<Key>, env: Env): Style {
    if env.ownsRevokesAtStart then style - (KeySet(owned) - env.stuck) else style
  }

  /** Whether the try block is reached. */
  predicate Enters(style: Style, owned: seq<Key>, keys: seq<Key>, env: Env) {
    !env.abortedAtStart && env.ownsAtStart == Yes && !env.snapshotFails && Coherent(Begun(style, owned, env), keys)
  }

  function RevocationOf(p: Progress, env: Env): Revocation {
    if env.ownsRevokesAtStart then AtStart
    else if p.revoked then Midway
    else if p.stop != Finished && env.rollbackRevokes then InRollback
    else Never
  }

  /** A whole batch on an idle binding set with an active lease that owns these keys. */
  function RunBatch(style: Style, owned: seq<Key>, keys: seq<Key>, actions: map<Key, Action>, env: Env): BatchResult
    requires forall k :: k in keys ==> k in actions
  {
    var begun := Begun(style, owned, env);
    var revocation := if env.ownsRevokesAtStart then AtStart else Never;
    if env.abortedAtStart then BatchResult(style, Thrown(Aborted), Never)
    else if env.ownsAtStart == Throws then BatchResult(begun, Thrown(OwnsThrew), revocation)
    else if env.ownsAtStart == No then BatchResult(begun, Returned(false), revocation)
    else if env.snapshotFails || !Coherent(begun, keys) then BatchResult(begun, Thrown(Incoherent), revocation)
    else
      var p := Forward(begun, keys, actions, env, 0);
      BatchResult(Settle(begun, p, keys, env.stuck), OutcomeOf(p.stop), RevocationOf(p, env))
  }

  ghost predicate SameAt(a: Style, b: Style, k: Key) {
    (k in a <==> k in b) && (k in a ==> a[k] == b[k])
  }

  lemma {:induction false} ForwardTouchesKeys(style: Style, keys: seq<Key>, actions: map<Key, Action>, env: Env,
                                              i: nat, k: Key)
    requires i <= |keys| && forall k :: k in keys ==> k in actions
    requires k !in keys[i..]
    ensures SameAt(style, Forward(style, keys, actions, env, i).style, k)
    decreases |keys| - i
  {
    if i < |keys| {
      assert keys[i] in keys[i..];
      assert forall x :: x in keys[i+1..] ==> x in keys[i..];
      var p := OneStep(style, keys[i], actions[keys[i]], env.At(i), !env.ownsRevokesAtStart);
      ForwardTouchesKeys(p.style, keys, actions, env, i + 1, k);
    }
  }

  /** Success on a revoked lease is left to a try block without keys. */
  lemma {:induction false} ForwardFinished(style: Style, keys: seq<Key>, actions: map<Key, Action>, env: Env, i: nat)
    requires i <= |keys| && forall k :: k in keys ==> k in actions
    ensures var p := Forward(style, keys, actions, env, i);
            && (env.ownsRevokesAtStart ==> p.revoked && (p.stop == Finished <==> i == |keys|))
            && (!env.ownsRevokesAtStart && p.stop == Finished ==> !p.revoked)
            && (p.stop == Raised(RevokedMidBatch) ==> p.revoked)
    decreases |keys| - i
  {
    if i < |keys| {
      var p := OneStep(style, keys[i], actions[keys[i]], env.At(i), !env.ownsRevokesAtStart);
      ForwardFinished(p.style, keys, actions, env, i + 1);
    }
  }

  /** A batch that does not complete leaves no trace: unless it lost its lease on the way in or in
      the try block, every property has the presence, value and priority it had before, except where
      putting it back threw. */
  lemma BatchAtomic(style: Style, owned: seq<Key>, keys: seq<Key>, actions: map<Key, Action>, env: Env, k: Key)
    requires forall k :: k in keys ==> k in actions
    requires var r := RunBatch(style, owned, keys, actions, env);
             r.outcome != Returned(true) && (r.revocation == Never || r.revocation == InRollback)
    requires k !in env.stuck
    ensures SameAt(style, RunBatch(style, owned, keys, actions, env).style, k)
  {
    if k !in keys { ForwardTouchesKeys(style, keys, actions, env, 0, k); }
  }

  /** Foreign properties are never touched, whatever happens; nor are the lease's own outside the
      batch, unless it was revoked before the batch began. */
  lemma BatchFrame(style: Style, owned: seq<Key>, keys: seq<Key>, actions: map<Key, Action>, env: Env, k: Key)
    requires forall k :: k in keys ==> k in actions
    requires k !in keys && (k in owned ==> RunBatch(style, owned, keys, actions, env).revocation != AtStart)
    ensures SameAt(style, RunBatch(style, owned, keys, actions, env).style, k)
  {
    ForwardTouchesKeys(Begun(style, owned, env), keys, actions, env, 0, k);
  }

  /** Losing the lease inside the try block, or coming to it without one, ends with every batch key
      removed and never with success. */
  lemma BatchRevoked(style: Style, owned: seq<Key>, keys: seq<Key>, actions: map<Key, Action>, env: Env, k: Key)
    requires forall k :: k in keys ==> k in actions
    requires var r := RunBatch(style, owned, keys, actions, env).revocation;
             r == Midway || (r == AtStart && Enters(style, owned, keys, env))
    requires k in keys && k !in env.stuck
    ensures k !in RunBatch(style, owned, keys, actions, env).style
    ensures RunBatch(style, owned, keys, actions, env).outcome != Returned(true)
  {
    ForwardFinished(Begun(style, owned, env), keys, actions, env, 0);
  }

  /** A lease revoked by the first ownership callback: all its keys are off the style, and so is every
      key of the batch if there was one to enter. Success is reported in one case, that of a batch
      without keys. */
  lemma StartRevocation(style: Style, owned: seq<Key>, keys: seq<Key>, actions: map<Key, Action>, env: Env)
    requires forall k :: k in keys ==> k in actions
    requires !env.abortedAtStart && env.ownsRevokesAtStart
    ensures var r := RunBatch(style, owned, keys, actions, env);
            && r.revocation == AtStart
            && (forall k :: k in owned && k !in env.stuck ==> k !in r.style)
            && (Enters(style, owned, keys, env) ==> forall k :: k in keys && k !in env.stuck ==> k !in r.style)
            && (r.outcome == Returned(true) <==> Enters(style, owned, keys, env) && keys == [])
  {
    var r := RunBatch(style, owned, keys, actions, env);
    var begun := Begun(style, owned, env);
    ForwardFinished(begun, keys, actions, env, 0);
    forall k | k in owned && k !in env.stuck ensures k !in r.style {
      if k !in keys { ForwardTouchesKeys(begun, keys, actions, env, 0, k); }
    }
  }

  /** What revocation leaves of an owned key: nothing when it came before the batch, or in the middle
      of a batch on that key; otherwise the key is there exactly when it was there before. */
  lemma RevocationExact(style: Style, owned: seq<Key>, keys: seq<Key>, actions: map<Key, Action>, env: Env, k: Key)
    requires forall k :: k in keys ==> k in actions
    requires RunBatch(style, owned, keys, actions, env).Revoked() && k in owned && k !in env.stuck
    ensures var r := RunBatch(style, owned, keys, actions, env);
            k !in r.style <==> r.revocation == AtStart || (r.revocation == Midway && k in keys) || k !in style
  {
    var r := RunBatch(style, owned, keys, actions, env);
    ForwardFinished(Begun(style, owned, env), keys, actions, env, 0);
    if r.revocation == AtStart {
      StartRevocation(style, owned, keys, actions, env);
    } else if r.revocation == InRollback {
      BatchAtomic(style, owned, keys, actions, env, k);
    } else if k in keys {
      BatchRevoked(style, owned, keys, actions, env, k);
    } else {
      BatchFrame(style, owned, keys, actions, env, k);
    }
  }

  lemma {:induction false} FinishedApplies(style: Style, keys: seq<Key>, actions: map<Key, Action>, env: Env, i: nat,
                                           j: nat)
    requires i <= j < |keys| && Distinct(keys) && forall k :: k in keys ==> k in actions
    requires Forward(style, keys, actions, env, i).stop == Finished
    ensures SameAt(Apply(style, keys[j], actions[keys[j]]), Forward(style, keys, actions, env, i).style, keys[j])
    decreases j - i
  {
    var after := Apply(style, keys[i], actions[keys[i]]);
    assert Forward(style, keys, actions, env, i) == Forward(after, keys, actions, env, i + 1);
    if i == j {
      ForwardTouchesKeys(after, keys, actions, env, i + 1, keys[j]);
    } else {
      FinishedApplies(after, keys, actions, env, i + 1, j);
    }
  }

  /** A completed batch has done every action. */
  lemma BatchDone(style: Style, owned: seq<Key>, keys: seq<Key>, actions: map<Key, Action>, env: Env, k: Key)
    requires Distinct(keys) && forall k :: k in keys ==> k in actions
    requires RunBatch(style, owned, keys, actions, env).outcome == Returned(true)
    requires k in keys
    ensures SameAt(Apply(style, k, actions[k]), RunBatch(style, owned, keys, actions, env).style, k)
    ensures !RunBatch(style, owned, keys, actions, env).Revoked()
  {
    var j :| 0 <= j < |keys| && keys[j] == k;
    ForwardFinished(Begun(style, owned, env), keys, actions, env, 0);
    FinishedApplies(style, keys, actions, env, 0, j);
  }

  /** A round that goes wrong: the signal, the ownership callback, or a style call that is made. */
  predicate Disturbs(step: Step, action: Action) {
    || step.aborted || step.owns != Yes || step.ownsRevokes
    || (action != Skip && (step.fault != NoFault || step.callRevokes))
  }

  lemma {:induction false} ForwardCompletes(style: Style, keys: seq<Key>, actions: map<Key, Action>, env: Env, i: nat)
    requires i <= |keys| && forall k :: k in keys ==> k in actions
    ensures Forward(style, keys, actions, env, i).stop == Finished <==>
            && (env.ownsRevokesAtStart ==> i == |keys|)
            && forall j :: i <= j < |keys| ==> !Disturbs(env.At(j), actions[keys[j]])
    decreases |keys| - i
  {
    if i < |keys| {
      var p := OneStep(style, keys[i], actions[keys[i]], env.At(i), !env.ownsRevokesAtStart);
      ForwardCompletes(p.style, keys, actions, env, i + 1);
    }
  }

  /** Exactly when a batch reports success: the try block is entered, with the lease or with nothing to
      do, and no round goes wrong. */
  lemma CompletesIff(style: Style, owned: seq<Key>, keys: seq<Key>, actions: map<Key, Action>, env: Env)
    requires forall k :: k in keys ==> k in actions
    ensures RunBatch(style, owned, keys, actions, env).outcome == Returned(true) <==>
            && Enters(style, owned, keys, env) && (env.ownsRevokesAtStart ==> keys == [])
            && forall j :: 0 <= j < |keys| ==> !Disturbs(env.At(j), actions[keys[j]])
  {
    ForwardCompletes(Begun(style, owned, env), keys, actions, env, 0);
  }

  lemma {:induction false} ForwardStops(style: Style, keys: seq<Key>, actions: map<Key, Action>, env: Env,
                                        i: nat, j: nat)
    returns (before: Style)
    requires i <= j < |keys| && (forall k :: k in keys ==> k in actions) && !env.ownsRevokesAtStart
    requires forall n :: i <= n < j ==> !Disturbs(env.At(n), actions[keys[n]])
    requires Disturbs(env.At(j), actions[keys[j]])
    ensures Forward(style, keys, actions, env, i) == OneStep(before, keys[j], actions[keys[j]], env.At(j), true)
    decreases j - i
  {
    if i == j {
      before := style;
    } else {
      var p := OneStep(style, keys[i], actions[keys[i]], env.At(i), true);
      before := ForwardStops(p.style, keys, actions, env, i + 1, j);
    }
  }

  /** The outcome of a batch that goes wrong is that of its first disturbance. */
  lemma FirstDisturbance(style: Style, owned: seq<Key>, keys: seq<Key>, actions: map<Key, Action>, env: Env, j: nat)
    requires (forall k :: k in keys ==> k in actions) && !env.ownsRevokesAtStart && Enters(style, owned, keys, env)
    requires j < |keys| && Disturbs(env.At(j), actions[keys[j]])
    requires forall n :: 0 <= n < j ==> !Disturbs(env.At(n), actions[keys[n]])
    ensures var step, outcome := env.At(j), RunBatch(style, owned, keys, actions, env).outcome;
            && (step.aborted ==> outcome == Thrown(Aborted))
            && (!step.aborted && step.owns == Throws ==> outcome == Thrown(OwnsThrew))
            && (!step.aborted && step.owns == No ==> outcome == Returned(false))
            && (!step.aborted && step.owns == Yes && actions[keys[j]] != Skip && step.fault != NoFault ==>
                  outcome == Thrown(StyleThrew))
            && (!step.aborted && step.owns == Yes && (actions[keys[j]] == Skip || step.fault == NoFault) ==>
                  outcome == Thrown(RevokedMidBatch))
  {
    var begun := Begun(style, owned, env);
    var before := ForwardStops(begun, keys, actions, env, 0, j);
    var p := OneStep(before, keys[j], actions[keys[j]], env.At(j), true);
    assert RunBatch(style, owned, keys, actions, env).outcome == OutcomeOf(p.stop);
  }

  /// ------------------------------------------------------------ commit and patch

  datatype JsValue = Str(text: string) | NonString

  /** An options record as the caller passes it: its own keys in order, and their values. */
  datatype Vars = Vars(keys: seq<Key>, values: map<Key, JsValue>) {
    predicate Ok() {
      && Distinct(keys) && (forall k :: k in keys ==> k in values) && (forall k :: k in values ==> k in keys)
    }
  }

  /** A full snapshot: write what it has, erase what it lacks. With diffFrom, the values of the
      previous write, unchanged keys and all removals are skipped. */
  function CommitAction(next: Vars, diffFrom: Option<map<Key, string>>, k: Key): Action {
    var has := k in next.values && next.values[k].Str?;
    match diffFrom
    case Some(d) =>
      if has && !(k in d && d[k] == next.values[k].text) then Write(next.values[k].text) else Skip
    case None =>
      if has then Write(next.values[k].text) else Erase
  }

  function PatchAction(partial: Vars, k: Key): Action {
    if k in partial.values && partial.values[k].Str? then Write(partial.values[k].text) else Erase
  }

  function CommitActions(keys: seq<Key>, next: Vars, diffFrom: Option<map<Key, string>>): map<Key, Action> {
    map k | k in keys :: CommitAction(next, diffFrom, k)
  }

  function PatchActions(partial: Vars): map<Key, Action> {
    map k | k in partial.keys :: PatchAction(partial, k)
  }

  /** The style shows, at key k, exactly what the snapshot says: its value, unimportant, or nothing. */
  predicate Shows(style: Style, next: Vars, k: Key) {
    if k in next.values && next.values[k].Str? && next.values[k].text != "" then
      k in style && style[k] == Entry(next.values[k].text, false)
    else k !in style
  }

  /** A completed full commit makes the style show the snapshot on every key of the batch. */
  lemma CommitShows(style: Style, owned: seq<Key>, keys: seq<Key>, next: Vars, env: Env, k: Key)
    requires Distinct(keys) && k in keys
    requires RunBatch(style, owned, keys, CommitActions(keys, next, None), env).outcome == Returned(true)
    ensures Shows(RunBatch(style, owned, keys, CommitActions(keys, next, None), env).style, next, k)
  {
    BatchDone(style, owned, keys, CommitActions(keys, next, None), env, k);
  }

  /** With diffFrom a completed commit shows the snapshot at a key exactly when it wrote the key or
      the style showed it already; so the shortcut is sound for an unchanged key set whose previous
      write is still in place, and leaves a dropped key behind whenever it was present. */
  lemma DiffCommitShowsExactly(style: Style, owned: seq<Key>, keys: seq<Key>, next: Vars, d: map<Key, string>,
                               env: Env, k: Key)
    requires Distinct(keys) && k in keys
    requires RunBatch(style, owned, keys, CommitActions(keys, next, Some(d)), env).outcome == Returned(true)
    ensures Shows(RunBatch(style, owned, keys, CommitActions(keys, next, Some(d)), env).style, next, k) <==>
            || (k in next.values && next.values[k].Str? && !(k in d && d[k] == next.values[k].text))
            || Shows(style, next, k)
  {
    BatchDone(style, owned, keys, CommitActions(keys, next, Some(d)), env, k);
  }

  /** A key set to a text, without priority; the empty text is no declaration. */
  predicate Declares(style: Style, k: Key, text: string) {
    if text == "" then k !in style else k in style && style[k] == Entry(text, false)
  }

  /** From before to after, exactly the texts are declared, the removed keys are gone, and every other
      property has the presence, value and priority it had. */
  ghost predicate Becomes(before: Style, after: Style, texts: map<Key, string>, removed: set<Key>) {
    forall k ::
      if k in texts then Declares(after, k, texts[k])
      else if k in removed then k !in after
      else SameAt(before, after, k)
  }

  /** The texts of a record; all of them, or those that differ from another record. */
  function Texts(vars: Vars): map<Key, string> {
    map k | k in vars.values && vars.values[k].Str? :: vars.values[k].text
  }

  function Changed(texts: map<Key, string>, d: map<Key, string>): map<Key, string> {
    map k | k in texts && !(k in d && d[k] == texts[k]) :: texts[k]
  }

  /** What a completed commit leaves: a full one declares the snapshot and removes what the lease owned
      besides; with diffFrom it declares what differs, and nothing else changes. */
  ghost predicate CommitDone(before: Style, after: Style, owned: seq<Key>, next: Vars,
                             diffFrom: Option<map<Key, string>>)
  {
    match diffFrom
    case None => Becomes(before, after, Texts(next), KeySet(owned))
    case Some(d) => Becomes(before, after, Changed(Texts(next), d), {})
  }

  lemma CommitIsDone(style: Style, owned: seq<Key>, keys: seq<Key>, next: Vars, diffFrom: Option<map<Key, string>>,
                     env: Env)
    requires next.Ok() && forall k :: k in next.keys ==> next.values[k].Str?
    requires Distinct(keys) && forall k :: k in keys <==> k in owned || k in next.keys
    requires RunBatch(style, owned, keys, CommitActions(keys, next, diffFrom), env).outcome == Returned(true)
    ensures CommitDone(style, RunBatch(style, owned, keys, CommitActions(keys, next, diffFrom), env).style, owned,
                       next, diffFrom)
  {
    var actions := CommitActions(keys, next, diffFrom);
    var after := RunBatch(style, owned, keys, actions, env).style;
    forall k ensures SameAt(if k in keys then Apply(style, k, CommitAction(next, diffFrom, k)) else style, after, k) {
      if k in keys {
        BatchDone(style, owned, keys, actions, env, k);
      } else {
        BatchFrame(style, owned, keys, actions, env, k);
      }
    }
    AppliedIsDone(style, after, owned, keys, next, diffFrom);
  }

  lemma AppliedIsDone(style: Style, after: Style, owned: seq<Key>, keys: seq<Key>, next: Vars,
                      diffFrom: Option<map<Key, string>>)
    requires next.Ok() && forall k :: k in next.keys ==> next.values[k].Str?
    requires forall k :: k in keys <==> k in owned || k in next.keys
    requires forall k ::
      SameAt(if k in keys then Apply(style, k, CommitAction(next, diffFrom, k)) else style, after, k)
    ensures CommitDone(style, after, owned, next, diffFrom)
  {
  }

  /** What a completed patch leaves: its strings are declared, its other keys are gone, and nothing
      else changes. */
  ghost predicate PatchDone(before: Style, after: Style, partial: Vars) {
    Becomes(before, after, Texts(partial), KeySet(partial.keys))
  }

  lemma PatchIsDone(style: Style, owned: seq<Key>, partial: Vars, env: Env)
    requires partial.Ok() && forall k :: k in partial.keys ==> k in owned
    requires RunBatch(style, owned, partial.keys, PatchActions(partial), env).outcome == Returned(true)
    requires !RunBatch(style, owned, partial.keys, PatchActions(partial), env).Revoked()
    ensures PatchDone(style, RunBatch(style, owned, partial.keys, PatchActions(partial), env).style, partial)
  {
    var keys, actions := partial.keys, PatchActions(partial);
    forall k | k in keys
      ensures SameAt(Apply(style, k, PatchAction(partial, k)), RunBatch(style, owned, keys, actions, env).style, k)
    {
      BatchDone(style, owned, keys, actions, env, k);
    }
    forall k | k !in keys ensures SameAt(style, RunBatch(style, owned, keys, actions, env).style, k) {
      BatchFrame(style, owned, keys, actions, env, k);
    }
  }

  /// two keys of one lease, as the style shows them
  const FIRST := Key("--lab-a")
  const SECOND := Key("--lab-b")
  const TWO_KEYS: Style := map[FIRST := Entry("1", false), SECOND := Entry("2", false)]

  lemma TwoKeys()
    ensures FIRST != SECOND && Coherent(TWO_KEYS, [FIRST]) && Coherent(TWO_KEYS, [FIRST, SECOND])
  {
    assert FIRST.name[6] != SECOND.name[6];
  }

  const QUIET_CALL := Env(false, Yes, false, false, [], {}, false)

  /** A dropped key stays: one of two written keys is left out of the next snapshot, nothing goes
      wrong, the commit reports success, and the style still has the key. */
  lemma DiffCommitLeavesKey()
    ensures var next := Vars([FIRST], map[FIRST := Str("1")]);
            var keys := [FIRST, SECOND];
            var actions := CommitActions(keys, next, Some(map[FIRST := "1", SECOND := "2"]));
            var r := RunBatch(TWO_KEYS, keys, keys, actions, QUIET_CALL);
            r.outcome == Returned(true) && SECOND !in next.values && SECOND in r.style && !Shows(r.style, next, SECOND)
  {
    TwoKeys();
    var next := Vars([FIRST], map[FIRST := Str("1")]);
    var keys := [FIRST, SECOND];
    var actions := CommitActions(keys, next, Some(map[FIRST := "1", SECOND := "2"]));
    assert Forward(TWO_KEYS, keys, actions, QUIET_CALL, 2).stop == Finished;
    assert Forward(TWO_KEYS, keys, actions, QUIET_CALL, 1) == Forward(TWO_KEYS, keys, actions, QUIET_CALL, 2);
    assert Forward(TWO_KEYS, keys, actions, QUIET_CALL, 0) == Forward(TWO_KEYS, keys, actions, QUIET_CALL, 1);
  }

  /** Revocation before or in the middle of a commit takes every key the lease owned off the style,
      and with the try block entered also every key it was about to own. */
  lemma CommitRevocationComplete(style: Style, owned: seq<Key>, next: Vars, keys: seq<Key>,
                                 diffFrom: Option<map<Key, string>>, env: Env, k: Key)
    requires forall x :: x in keys <==> x in owned || x in next.keys
    requires var r := RunBatch(style, owned, keys, CommitActions(keys, next, diffFrom), env).revocation;
             r == AtStart || r == Midway
    requires k !in env.stuck && (k in owned || (k in next.keys && Enters(style, owned, keys, env)))
    ensures k !in RunBatch(style, owned, keys, CommitActions(keys, next, diffFrom), env).style
  {
    var actions := CommitActions(keys, next, diffFrom);
    if k in owned {
      RevocationExact(style, owned, keys, actions, env, k);
    } else {
      BatchRevoked(style, owned, keys, actions, env, k);
    }
  }

  /** A commit revoked at any point leaves none of the keys the lease owned exactly when it was not
      revoked by a restoring call, or none of them was present. */
  lemma CommitRevocationExact(style: Style, owned: seq<Key>, next: Vars, keys: seq<Key>,
                              diffFrom: Option<map<Key, string>>, env: Env)
    requires forall x :: x in keys <==> x in owned || x in next.keys
    requires RunBatch(style, owned, keys, CommitActions(keys, next, diffFrom), env).Revoked()
    ensures var r := RunBatch(style, owned, keys, CommitActions(keys, next, diffFrom), env);
            (forall k :: k in owned && k !in env.stuck ==> k !in r.style) <==>
            r.revocation != InRollback || forall k :: k in owned && k !in env.stuck ==> k !in style
  {
    forall k | k in owned && k !in env.stuck {
      RevocationExact(style, owned, keys, CommitActions(keys, next, diffFrom), env, k);
    }
  }

  /** A patch revoked in the middle loses only the patched keys: the owned keys are all gone exactly
      when the revocation came before the batch, or none that it did not remove was present. */
  lemma PatchRevocationExact(style: Style, owned: seq<Key>, partial: Vars, env: Env)
    requires partial.Ok() && (forall k :: k in partial.keys ==> k in owned)
    requires RunBatch(style, owned, partial.keys, PatchActions(partial), env).Revoked()
    ensures var r := RunBatch(style, owned, partial.keys, PatchActions(partial), env);
            (forall k :: k in owned && k !in env.stuck ==> k !in r.style) <==>
            || r.revocation == AtStart
            || (forall k :: k in owned && k !in env.stuck && !(r.revocation == Midway && k in partial.keys) ==>
                  k !in style)
  {
    forall k | k in owned && k !in env.stuck {
      RevocationExact(style, owned, partial.keys, PatchActions(partial), env, k);
    }
  }

  /** The case that shows the difference: a one-key patch of a two-key lease, revoked while it writes. */
  lemma PatchRevocationLeavesKey()
    ensures var partial := Vars([FIRST], map[FIRST := Str("3")]);
            var env := QUIET_CALL.(steps := [QUIET.(callRevokes := true)]);
            var r := RunBatch(TWO_KEYS, [FIRST, SECOND], partial.keys, PatchActions(partial), env);
            r.revocation == Midway && FIRST !in r.style && SECOND in r.style
  {
    TwoKeys();
    var partial := Vars([FIRST], map[FIRST := Str("3")]);
    var env := QUIET_CALL.(steps := [QUIET.(callRevokes := true)]);
    assert env.At(0) == env.steps[0];
    BatchRevoked(TWO_KEYS, [FIRST, SECOND], partial.keys, PatchActions(partial), env, FIRST);
    BatchFrame(TWO_KEYS, [FIRST, SECOND], partial.keys, PatchActions(partial), env, SECOND);
  }

  /** Success on a revoked lease: a batch without keys whose first ownership callback revokes it. */
  lemma EmptyBatchSucceedsRevoked()
    ensures var env := QUIET_CALL.(ownsRevokesAtStart := true);
            var r := RunBatch(TWO_KEYS, [], [], map[], env);
            r.outcome == Returned(true) && r.revocation == AtStart && r.style == TWO_KEYS
  {
    var env := QUIET_CALL.(ownsRevokesAtStart := true);
    StartRevocation(TWO_KEYS, [], [], map[], env);
    assert Begun(TWO_KEYS, [], env) == TWO_KEYS;
  }

  /** Neither end promised by the module's header: a write throws, a restoring call revokes the lease,
      and the revoked lease's keys are all on the style again. */
  lemma RollbackRevocationLeavesKeys()
    ensures var next := Vars([FIRST], map[FIRST := Str("3")]);
            var keys := [FIRST, SECOND];
            var env := QUIET_CALL.(steps := [QUIET.(fault := ThrowAfter)], rollbackRevokes := true);
            var r := RunBatch(TWO_KEYS, keys, keys, CommitActions(keys, next, None), env);
            r.revocation == InRollback && r.outcome == Thrown(StyleThrew) && r.style == TWO_KEYS
  {
    TwoKeys();
    var next := Vars([FIRST], map[FIRST := Str("3")]);
    var keys := [FIRST, SECOND];
    var actions := CommitActions(keys, next, None);
    var env := QUIET_CALL.(steps := [QUIET.(fault := ThrowAfter)], rollbackRevokes := true);
    assert env.At(0) == env.steps[0];
    assert Forward(TWO_KEYS, keys, actions, env, 0).stop == Raised(StyleThrew);
  }
}
