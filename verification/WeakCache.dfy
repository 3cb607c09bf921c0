/** The caches of broadcast hash maps and Bloom filters (`get_cached_join_hash_map`,
    `get_cached_bloom_filter`, `clear_cached_bloom_filter`): a global table of slots under one lock,
    in each slot a weak reference under a lock of its own. Any number of callers interleave. */
module WeakCache {
  import opened Seqs

  type Id = string

  /** Where a caller is. A slot is locked by the caller that is `Locked` or `Building` on it. */
  datatype Pc =
    | Outside
    | Entering(id: Id)
    | WantSlot(id: Id, slot: nat)
    | Locked(id: Id, slot: nat)
    | Building(id: Id, slot: nat)

  /** `table` maps ids to slots and `weak` is what each slot refers to. Objects are numbered as they are
      built; `builtFor` says for which id. `refs` are the strong references callers have been given. */
  datatype State = State(
    table: map<Id, nat>, weak: seq<Option<nat>>, builtFor: seq<Id>, refs: multiset<nat>, callers: seq<Pc>)

  predicate Alive(s: State, obj: nat) { obj in s.refs }

  predicate HoldsSlot(pc: Pc, slot: nat) {
    (pc.WantSlot? || pc.Locked? || pc.Building?) && pc.slot == slot
  }

  predicate LocksSlot(pc: Pc, slot: nat) { (pc.Locked? || pc.Building?) && pc.slot == slot }

  /** Owners of a slot: the table entries and the callers that cloned it. */
  function StrongCount(s: State, slot: nat): nat {
    |set id | id in s.table && s.table[id] == slot| +
    |set t | 0 <= t < |s.callers| && HoldsSlot(s.callers[t], slot)|
  }

  /** The entries whose slot still has an owner. */
  function Retain(s: State): map<Id, nat> {
    map id | id in s.table && StrongCount(s, s.table[id]) > 0 :: s.table[id]
  }

  /** The table entry is itself an owner, so no entry is ever dropped. */
  lemma RetainKeepsAll(s: State)
    ensures Retain(s) == s.table
  {
    forall id | id in s.table ensures StrongCount(s, s.table[id]) > 0 {
      var owners := set x | x in s.table && s.table[x] == s.table[id];
      assert id in owners;
    }
  }

  datatype Outcome = Built | NotCached

  /** A caller may be cancelled while it awaits the lock of its slot; cancelled while it builds, it ends as
      a build that yields no object. */
  datatype Action =
    | Call(t: nat, id: Id)
    | GetSlot(t: nat)
    | LockSlot(t: nat)
    | Resolve(t: nat)
    | FinishBuild(t: nat, outcome: Outcome)
    | Cancel(t: nat)
    | DropRef(obj: nat)
    | Clear

  predicate Enabled(s: State, a: Action) {
    match a
    case Call(t, id) => t < |s.callers| && s.callers[t].Outside?
    case GetSlot(t) => t < |s.callers| && s.callers[t].Entering?
    case LockSlot(t) =>
      && t < |s.callers| && s.callers[t].WantSlot?
      && forall u :: 0 <= u < |s.callers| ==> !LocksSlot(s.callers[u], s.callers[t].slot)
    case Resolve(t) => t < |s.callers| && s.callers[t].Locked? && s.callers[t].slot < |s.weak|
    case FinishBuild(t, _) => t < |s.callers| && s.callers[t].Building? && s.callers[t].slot < |s.weak|
    case Cancel(t) => t < |s.callers| && s.callers[t].WantSlot?
    case DropRef(obj) => obj in s.refs
    case Clear => true
  }

  /** What the weak reference of a slot upgrades to. */
  function Upgrade(s: State, slot: nat): Option<nat>
    requires slot < |s.weak|
  {
    if s.weak[slot].Some? && Alive(s, s.weak[slot].value) then s.weak[slot] else None
  }

  function Apply(s: State, a: Action): State
    requires Enabled(s, a)
  {
    match a
    case Call(t, id) => s.(callers := s.callers[t := Entering(id)])
    case GetSlot(t) =>
      // expired entries are removed, then the entry of the id is found or made
      var id := s.callers[t].id;
      var table := Retain(s);
      if id in table then
        s.(table := table, callers := s.callers[t := WantSlot(id, table[id])])
      else
        s.(table := table[id := |s.weak|], weak := s.weak + [None],
           callers := s.callers[t := WantSlot(id, |s.weak|)])
    case LockSlot(t) => s.(callers := s.callers[t := Locked(s.callers[t].id, s.callers[t].slot)])
    case Resolve(t) =>
      var pc := s.callers[t];
      var cached := Upgrade(s, pc.slot);
      if cached.Some? then
        s.(refs := s.refs + multiset{cached.value}, callers := s.callers[t := Outside])
      else
        s.(callers := s.callers[t := Building(pc.id, pc.slot)])
    case FinishBuild(t, outcome) =>
      var pc := s.callers[t];
      if outcome.Built? then
        var obj := |s.builtFor|;
        s.(weak := s.weak[pc.slot := Some(obj)], builtFor := s.builtFor + [pc.id],
           refs := s.refs + multiset{obj}, callers := s.callers[t := Outside])
      else
        s.(callers := s.callers[t := Outside])
    case Cancel(t) => s.(callers := s.callers[t := Outside])
    case DropRef(obj) => s.(refs := s.refs - multiset{obj})
    case Clear => s.(table := Retain(s))
  }

  // ---------------------------------------------------------------------------------------------
  // What every reachable state satisfies.

  /** Each slot belongs to one id for good. */
  ghost predicate TableOk(s: State) {
    && (forall id :: id in s.table ==> s.table[id] < |s.weak|)
    && (forall a, b :: a in s.table && b in s.table && s.table[a] == s.table[b] ==> a == b)
  }

  predicate CallerOk(s: State, pc: Pc) {
    pc.WantSlot? || pc.Locked? || pc.Building? ==> pc.id in s.table && s.table[pc.id] == pc.slot
  }

  ghost predicate CallersOk(s: State) {
    forall t :: 0 <= t < |s.callers| ==> CallerOk(s, s.callers[t])
  }

  ghost predicate Mutex(s: State) {
    forall t, u, slot :: 0 <= t < u < |s.callers| && LocksSlot(s.callers[t], slot)
      ==> !LocksSlot(s.callers[u], slot)
  }

  /** A live object is the one its id's slot refers to. */
  predicate Current(s: State, obj: nat) {
    && obj < |s.builtFor| && s.builtFor[obj] in s.table
    && s.table[s.builtFor[obj]] < |s.weak| && s.weak[s.table[s.builtFor[obj]]] == Some(obj)
  }

  ghost predicate LiveAreCurrent(s: State) {
    forall obj :: obj in s.refs ==> Current(s, obj)
  }

  /** A slot refers to nothing but objects of its own id. */
  ghost predicate SlotsOwn(s: State) {
    forall id :: id in s.table && s.table[id] < |s.weak| && s.weak[s.table[id]].Some? ==>
      s.weak[s.table[id]].value < |s.builtFor| && s.builtFor[s.weak[s.table[id]].value] == id
  }

  /** Nobody builds for an id of which an object is alive. */
  ghost predicate BuildsOnlyDead(s: State) {
    forall t, obj :: 0 <= t < |s.callers| && s.callers[t].Building? && obj in s.refs && obj < |s.builtFor|
      ==> s.builtFor[obj] != s.callers[t].id
  }

  ghost predicate Inv(s: State) {
    TableOk(s) && CallersOk(s) && Mutex(s) && LiveAreCurrent(s) && SlotsOwn(s) && BuildsOnlyDead(s)
  }

  ghost predicate Init(s: State) {
    && s.table == map[] && s.weak == [] && s.builtFor == [] && s.refs == multiset{}
    && forall t :: 0 <= t < |s.callers| ==> s.callers[t].Outside?
  }

  predicate SameId(s: State, a: nat, b: nat) {
    a < |s.builtFor| && b < |s.builtFor| && s.builtFor[a] == s.builtFor[b]
  }

  /** All live objects of one id are the same object. */
  lemma OneLiveObject(s: State, a: nat, b: nat)
    requires Inv(s) && a in s.refs && b in s.refs
    ensures a < |s.builtFor| && b < |s.builtFor|
    ensures s.builtFor[a] == s.builtFor[b] ==> a == b
  {
    assert Current(s, a) && Current(s, b);
  }

  lemma MutexStep(s: State, a: Action)
    requires Inv(s) && Enabled(s, a)
    ensures Mutex(Apply(s, a))
  {
    hide TableOk, CallersOk, LiveAreCurrent, BuildsOnlyDead, Retain, Upgrade;
  }

  function Actor(a: Action): int {
    match a
    case Call(t, _) => t
    case GetSlot(t) => t
    case LockSlot(t) => t
    case Resolve(t) => t
    case FinishBuild(t, _) => t
    case Cancel(t) => t
    case DropRef(_) => -1
    case Clear => -1
  }

  /** What no step changes: table entries, the objects built so far, the other callers. */
  ghost predicate Framed(s: State, s': State, actor: int) {
    && (forall id :: id in s.table ==> id in s'.table && s'.table[id] == s.table[id])
    && |s.builtFor| <= |s'.builtFor| && (forall obj :: 0 <= obj < |s.builtFor| ==> s'.builtFor[obj] == s.builtFor[obj])
    && |s.callers| == |s'.callers|
    && (forall t :: 0 <= t < |s.callers| && t != actor ==> s'.callers[t] == s.callers[t])
  }

  lemma Frame(s: State, a: Action)
    requires Enabled(s, a)
    ensures Framed(s, Apply(s, a), Actor(a))
  {
    hide Retain, Upgrade;
    RetainKeepsAll(s);
  }

  lemma TableStep(s: State, a: Action)
    requires Inv(s) && Enabled(s, a)
    ensures TableOk(Apply(s, a))
  {
    hide Mutex, LiveAreCurrent, BuildsOnlyDead, SlotsOwn, CallersOk, Retain, Upgrade;
    RetainKeepsAll(s);
  }

  lemma ActorOk(s: State, a: Action)
    requires Inv(s) && Enabled(s, a) && 0 <= Actor(a) < |Apply(s, a).callers|
    ensures CallerOk(Apply(s, a), Apply(s, a).callers[Actor(a)])
  {
    assert CallerOk(s, s.callers[Actor(a)]);
    hide Mutex, LiveAreCurrent, BuildsOnlyDead, SlotsOwn, TableOk, CallersOk, Retain, Upgrade;
    RetainKeepsAll(s);
  }

  lemma CallersStep(s: State, a: Action)
    requires Inv(s) && Enabled(s, a)
    ensures CallersOk(Apply(s, a))
  {
    var s' := Apply(s, a);
    Frame(s, a);
    hide Mutex, LiveAreCurrent, BuildsOnlyDead, SlotsOwn, TableOk, Apply;
    forall t | 0 <= t < |s'.callers| ensures CallerOk(s', s'.callers[t]) {
      assert CallerOk(s, s.callers[t]);
      if t == Actor(a) {
        ActorOk(s, a);
      }
    }
  }

  lemma LiveKept(s: State, a: Action, obj: nat)
    requires Inv(s) && Enabled(s, a) && !a.FinishBuild? && obj in Apply(s, a).refs
    ensures Current(Apply(s, a), obj)
  {
    hide Mutex, BuildsOnlyDead, SlotsOwn, TableOk, CallersOk, Retain;
    RetainKeepsAll(s);
    assert Current(s, obj);
  }

  lemma LiveBuilt(s: State, t: nat, outcome: Outcome, obj: nat)
    requires Inv(s) && Enabled(s, FinishBuild(t, outcome)) && obj in Apply(s, FinishBuild(t, outcome)).refs
    ensures Current(Apply(s, FinishBuild(t, outcome)), obj)
  {
    hide Mutex, SlotsOwn, Retain;
    assert CallerOk(s, s.callers[t]);
    if obj in s.refs {
      assert Current(s, obj);
    }
  }

  lemma LiveStep(s: State, a: Action)
    requires Inv(s) && Enabled(s, a)
    ensures LiveAreCurrent(Apply(s, a))
  {
    var s' := Apply(s, a);
    hide Inv, Apply, Current, Enabled;
    forall obj | obj in s'.refs ensures Current(s', obj) {
      if a.FinishBuild? {
        LiveBuilt(s, a.t, a.outcome, obj);
      } else {
        LiveKept(s, a, obj);
      }
    }
  }

  lemma SlotsStep(s: State, a: Action)
    requires Inv(s) && Enabled(s, a)
    ensures SlotsOwn(Apply(s, a))
  {
    hide Mutex, Retain, LiveAreCurrent, BuildsOnlyDead;
    RetainKeepsAll(s);
    if a.FinishBuild? { assert CallerOk(s, s.callers[a.t]); }
  }

  /** What becomes alive in a step. */
  lemma ComesAlive(s: State, a: Action, obj: nat)
    requires Enabled(s, a)
    ensures obj in Apply(s, a).refs && obj !in s.refs ==>
      && a.FinishBuild? && obj == |s.builtFor|
      && Apply(s, a).builtFor == s.builtFor + [s.callers[a.t].id] && Apply(s, a).callers[a.t].Outside?
  {
    hide Retain;
  }

  /** Who starts to build in a step. */
  lemma BeginsBuilding(s: State, a: Action, t: nat)
    requires Enabled(s, a) && t < |s.callers| && t < |Apply(s, a).callers|
    ensures Apply(s, a).callers[t].Building? && !s.callers[t].Building? ==>
      && a == Resolve(t) && s.callers[t].Locked? && Apply(s, a).callers[t].id == s.callers[t].id
      && Upgrade(s, s.callers[t].slot).None? && Apply(s, a).refs == s.refs
    ensures Apply(s, a).callers[t].Building? && s.callers[t].Building? ==> Apply(s, a).callers[t] == s.callers[t]
  {
    hide Retain;
  }

  /** Two callers that build do so for different ids. */
  lemma OtherBuilder(s: State, t: nat, u: nat)
    requires Inv(s) && t < |s.callers| && u < |s.callers| && s.callers[u].Building?
    ensures t != u && s.callers[t].Building? ==> s.callers[t].id != s.callers[u].id
  {
    assert CallerOk(s, s.callers[t]) && CallerOk(s, s.callers[u]);
    if t != u && s.callers[t].Building? {
      assert LocksSlot(s.callers[t], s.callers[t].slot) && LocksSlot(s.callers[u], s.callers[u].slot);
    }
  }

  lemma BuildsKept(s: State, a: Action, t: nat, obj: nat)
    requires Inv(s) && Enabled(s, a)
    requires var s' := Apply(s, a);
      t < |s'.callers| && s'.callers[t].Building? && obj in s'.refs && obj < |s'.builtFor|
    ensures Apply(s, a).builtFor[obj] != Apply(s, a).callers[t].id
  {
    Frame(s, a);
    ComesAlive(s, a, obj);
    BeginsBuilding(s, a, t);
    hide Apply, Mutex, SlotsOwn, TableOk;
    if obj !in s.refs {
      OtherBuilder(s, t, a.t);
    } else {
      assert Current(s, obj);
      assert CallerOk(s, s.callers[t]);
    }
  }

  lemma BuildsStep(s: State, a: Action)
    requires Inv(s) && Enabled(s, a)
    ensures BuildsOnlyDead(Apply(s, a))
  {
    var s' := Apply(s, a);
    hide Inv, Apply, Enabled;
    forall t, obj | 0 <= t < |s'.callers| && s'.callers[t].Building? && obj in s'.refs && obj < |s'.builtFor|
      ensures s'.builtFor[obj] != s'.callers[t].id
    {
      BuildsKept(s, a, t, obj);
    }
  }

  lemma InvStep(s: State, a: Action)
    requires Inv(s) && Enabled(s, a)
    ensures Inv(Apply(s, a))
  {
    hide TableOk, CallersOk, Mutex, LiveAreCurrent, SlotsOwn, BuildsOnlyDead, Apply;
    SlotsStep(s, a);
    TableStep(s, a);
    CallersStep(s, a);
    MutexStep(s, a);
    LiveStep(s, a);
    BuildsStep(s, a);
  }

  function Exec(s: State, actions: seq<Action>): Option<State> {
    if actions == [] then Some(s)
    else
      match Exec(s, actions[..|actions| - 1])
      case None => None
      case Some(m) =>
        var a := actions[|actions| - 1];
        if Enabled(m, a) then Some(Apply(m, a)) else None
  }

  /** In every interleaving: all live objects handed out for one id are the same one, and a caller
      builds only while no object of its id is alive. */
  lemma {:induction false} RunSafe(s: State, actions: seq<Action>)
    requires Init(s) && Exec(s, actions).Some?
    ensures
      var e := Exec(s, actions).value;
      && Inv(e)
      && (forall a, b :: a in e.refs && b in e.refs && SameId(e, a, b) ==> a == b)
      && (forall t, obj :: 0 <= t < |e.callers| && e.callers[t].Building? && obj in e.refs && obj < |e.builtFor|
            ==> e.builtFor[obj] != e.callers[t].id)
    decreases |actions|
  {
    hide Apply;
    if actions != [] {
      var n := |actions| - 1;
      RunSafe(s, actions[..n]);
      InvStep(Exec(s, actions[..n]).value, actions[n]);
    }
    var e := Exec(s, actions).value;
    forall a, b | a in e.refs && b in e.refs && SameId(e, a, b) ensures a == b {
      OneLiveObject(e, a, b);
    }
  }

  /** While an object of an id is alive, every caller for that id is given that object. */
  lemma HitIsTheLiveObject(s: State, t: nat, obj: nat)
    requires Inv(s) && Enabled(s, Resolve(t)) && obj in s.refs && obj < |s.builtFor|
    requires s.builtFor[obj] == s.callers[t].id
    ensures Apply(s, Resolve(t)).refs == s.refs + multiset{obj}
    ensures Apply(s, Resolve(t)).callers[t].Outside?
  {
    assert Current(s, obj) && CallerOk(s, s.callers[t]);
  }

  /** Whatever a caller is given was built for the id it asked for. */
  lemma HitHasTheRightId(s: State, t: nat)
    requires Inv(s) && Enabled(s, Resolve(t))
    ensures
      var cached := Upgrade(s, s.callers[t].slot);
      cached.Some? ==> cached.value < |s.builtFor| && s.builtFor[cached.value] == s.callers[t].id
  {
    assert CallerOk(s, s.callers[t]);
  }

  /** While a caller builds, its slot upgrades to nothing. */
  lemma BuildersSlotIsDead(s: State, t: nat)
    requires Inv(s) && t < |s.callers| && s.callers[t].Building?
    ensures s.callers[t].slot < |s.weak| && Upgrade(s, s.callers[t].slot).None?
  {
    assert CallerOk(s, s.callers[t]);
  }

  /** Nobody else holds the lock of the slot a caller builds for. */
  lemma BuilderLocksAlone(s: State, t: nat, u: nat)
    requires Inv(s) && t < |s.callers| && s.callers[t].Building? && u < |s.callers| && u != t
    ensures !LocksSlot(s.callers[u], s.callers[t].slot)
  {
    assert LocksSlot(s.callers[t], s.callers[t].slot);
  }

  /** One caller asks for an id and comes as far as resolving the slot, undisturbed. */
  function Ask(u: nat, id: Id): seq<Action> { [Call(u, id), GetSlot(u), LockSlot(u), Resolve(u)] }

  lemma ExecFour(s: State, a: Action, b: Action, c: Action, d: Action)
    requires Enabled(s, a) && Enabled(Apply(s, a), b) && Enabled(Apply(Apply(s, a), b), c)
    requires Enabled(Apply(Apply(Apply(s, a), b), c), d)
    ensures Exec(s, [a, b, c, d]) == Some(Apply(Apply(Apply(Apply(s, a), b), c), d))
  {
    hide Apply, Enabled;
    assert [a, b, c, d][..3] == [a, b, c] && [a, b, c][..2] == [a, b] && [a, b][..1] == [a] && [a][..0] == [];
    assert Exec(s, [a]) == Some(Apply(s, a));
    assert Exec(s, [a, b]) == Some(Apply(Apply(s, a), b));
  }

  /** After a build that failed or yielded no object, the next caller for the id, whoever it is, gets the
      same slot and builds again; it is not given a stale object and it is not locked out. */
  lemma FailedBuildIsRetried(s: State, t: nat, u: nat)
    requires Inv(s) && Enabled(s, FinishBuild(t, NotCached))
    requires u < |s.callers| && (u == t || s.callers[u].Outside?)
    ensures
      var s' := Apply(s, FinishBuild(t, NotCached));
      var r := Exec(s', Ask(u, s.callers[t].id));
      r.Some? && r.value.callers[u] == s.callers[t] && r.value.refs == s.refs
  {
    hide Retain;
    var pc := s.callers[t];
    var s0 := Apply(s, FinishBuild(t, NotCached));
    BuildersSlotIsDead(s, t);
    assert CallerOk(s, pc);
    forall v: nat | v < |s.callers| && v != t ensures !LocksSlot(s.callers[v], pc.slot) {
      BuilderLocksAlone(s, t, v);
    }
    hide Inv;
    var s1 := Apply(s0, Call(u, pc.id));
    RetainKeepsAll(s1);
    var s2 := Apply(s1, GetSlot(u));
    assert s2 == s1.(callers := s1.callers[u := WantSlot(pc.id, pc.slot)]);
    assert Enabled(s2, LockSlot(u));
    var s3 := Apply(s2, LockSlot(u));
    assert Upgrade(s3, pc.slot) == Upgrade(s, pc.slot);
    ExecFour(s0, Call(u, pc.id), GetSlot(u), LockSlot(u), Resolve(u));
  }

  /** The next action of a caller that is inside. */
  function NextAction(pc: Pc, t: nat): Action
    requires !pc.Outside?
  {
    match pc
    case Entering(_) => GetSlot(t)
    case WantSlot(_, _) => LockSlot(t)
    case Locked(_, _) => Resolve(t)
    case Building(_, _) => FinishBuild(t, NotCached)
  }

  /** A caller that is inside can take its next action, unless it wants a slot that another caller has
      locked; there is then one such caller, it is inside for the same id, and it can take its next
      action. */
  lemma WaitersProgress(s: State, t: nat)
    requires Inv(s) && t < |s.callers| && !s.callers[t].Outside?
    ensures Enabled(s, NextAction(s.callers[t], t)) ||
      (s.callers[t].WantSlot? &&
        exists u: nat :: u < |s.callers| && u != t && LocksSlot(s.callers[u], s.callers[t].slot)
          && s.callers[u].id == s.callers[t].id && Enabled(s, NextAction(s.callers[u], u)))
  {
    assert CallerOk(s, s.callers[t]);
    if s.callers[t].WantSlot? && !Enabled(s, LockSlot(t)) {
      var u: nat :| u < |s.callers| && LocksSlot(s.callers[u], s.callers[t].slot);
      assert CallerOk(s, s.callers[u]);
      assert Enabled(s, NextAction(s.callers[u], u));
    }
  }

  lemma BuiltSlot(s: State, t: nat)
    requires Inv(s) && Enabled(s, FinishBuild(t, Built))
    ensures
      var s' := Apply(s, FinishBuild(t, Built));
      s'.weak[s.callers[t].slot] == Some(|s.builtFor|) && |s.builtFor| in s'.refs && s'.table == s.table
  {
  }

  /** After a build that yields an object, its caller holds the object, and as long as anyone does, the next
      caller for the id, whoever it is, is given the same object. */
  lemma BuildIsShared(s: State, t: nat, u: nat)
    requires Inv(s) && Enabled(s, FinishBuild(t, Built))
    requires u < |s.callers| && (u == t || s.callers[u].Outside?)
    ensures
      var s' := Apply(s, FinishBuild(t, Built));
      var obj := |s.builtFor|;
      var r := Exec(s', Ask(u, s.callers[t].id));
      && obj in s'.refs && s'.callers[t].Outside?
      && r.Some? && r.value.callers[u].Outside? && r.value.refs == s'.refs + multiset{obj}
  {
    hide Retain;
    var pc, obj := s.callers[t], |s.builtFor|;
    var s0 := Apply(s, FinishBuild(t, Built));
    assert CallerOk(s, pc);
    forall v: nat | v < |s.callers| && v != t ensures !LocksSlot(s.callers[v], pc.slot) {
      BuilderLocksAlone(s, t, v);
    }
    BuiltSlot(s, t);
    hide Inv;
    var s1 := Apply(s0, Call(u, pc.id));
    RetainKeepsAll(s1);
    var s2 := Apply(s1, GetSlot(u));
    assert s2 == s1.(callers := s1.callers[u := WantSlot(pc.id, pc.slot)]);
    assert Enabled(s2, LockSlot(u));
    var s3 := Apply(s2, LockSlot(u));
    assert Upgrade(s3, pc.slot) == Some(obj);
    ExecFour(s0, Call(u, pc.id), GetSlot(u), LockSlot(u), Resolve(u));
  }
}
