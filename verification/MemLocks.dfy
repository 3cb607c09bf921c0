/** The locks of the memory manager. Calls of any number of threads are interleaved at the
    granularity of acquiring and releasing locks; the counters move with the steps of `MemManager`. */
module MemLocks {
  import opened Seqs
  import opened MemManager

  /** The lock of the consumer list, the lock of the counters, and one lock for each consumer. */
  datatype Lock = ListLock | StatusLock | SlotLock(consumer: nat)

  datatype Call =
    | Register(spillable: bool)
    | Deregister(consumer: nat)
    | SetSpillable(consumer: nat, spillable: bool)
    | Update(consumer: nat, change: Change)
    | Dump

  /** Where a thread is. `Want` names the lock it is about to take. */
  datatype Pc =
    | Idle
    | RegWantList(spillable: bool) | RegWantStatus(spillable: bool) | RegBody(spillable: bool) | RegRelease
    | DeregWantList(c: nat) | DeregWantStatus(c: nat) | DeregWantSlot(c: nat) | DeregBody(c: nat)
    | DeregReleaseList(c: nat) | DeregReleaseSlot(c: nat)
    | SetWantSlot(c: nat, spillable: bool) | SetCheck(c: nat, spillable: bool)
    | SetWantStatus(c: nat, spillable: bool) | SetBody(c: nat, spillable: bool) | SetFinish(c: nat, spillable: bool)
    | UpdWantStatus(c: nat, change: Change) | UpdWantSlot(c: nat, change: Change) | UpdBody(c: nat, change: Change)
    | UpdRelease(c: nat)
    | WaitWantStatus(c: nat) | WaitHold(c: nat) | Waiting(c: nat)
    | DumpWantStatus | DumpHold | DumpWantList | DumpAt(i: nat) | DumpSlot(i: nat)

  /** `flag` is the consumer's own flag; `counted` is what the counters take it for, which runs ahead
      of it in the middle of `set_spillable`. */
  datatype Slot = Slot(registered: bool, memUsed: nat, flag: bool, counted: bool)

  datatype State = State(status: Status, forced: nat, slots: seq<Slot>, threads: seq<Pc>)

  function Holds(pc: Pc): set<Lock> {
    match pc
    case RegWantStatus(_) => {ListLock}
    case RegBody(_) => {ListLock, StatusLock}
    case RegRelease => {ListLock}
    case DeregWantStatus(_) => {ListLock}
    case DeregWantSlot(_) => {ListLock, StatusLock}
    case DeregBody(c) => {ListLock, StatusLock, SlotLock(c)}
    case DeregReleaseList(c) => {ListLock, SlotLock(c)}
    case DeregReleaseSlot(c) => {SlotLock(c)}
    case SetCheck(c, _) => {SlotLock(c)}
    case SetWantStatus(c, _) => {SlotLock(c)}
    case SetBody(c, _) => {SlotLock(c), StatusLock}
    case SetFinish(c, _) => {SlotLock(c)}
    case UpdWantSlot(_, _) => {StatusLock}
    case UpdBody(c, _) => {StatusLock, SlotLock(c)}
    case UpdRelease(_) => {StatusLock}
    case WaitHold(_) => {StatusLock}
    case DumpHold => {StatusLock}
    case DumpAt(_) => {ListLock}
    case DumpSlot(i) => {ListLock, SlotLock(i)}
    case _ => {}
  }

  function Wants(slots: seq<Slot>, pc: Pc): Option<Lock> {
    match pc
    case RegWantList(_) => Some(ListLock)
    case RegWantStatus(_) => Some(StatusLock)
    case DeregWantList(_) => Some(ListLock)
    case DeregWantStatus(_) => Some(StatusLock)
    case DeregWantSlot(c) => Some(SlotLock(c))
    case SetWantSlot(c, _) => Some(SlotLock(c))
    case SetWantStatus(_, _) => Some(StatusLock)
    case UpdWantStatus(_, _) => Some(StatusLock)
    case UpdWantSlot(c, _) => Some(SlotLock(c))
    case WaitWantStatus(_) => Some(StatusLock)
    case DumpWantStatus => Some(StatusLock)
    case DumpWantList => Some(ListLock)
    case DumpAt(i) => if i < |slots| && slots[i].registered then Some(SlotLock(i)) else None
    case _ => None
  }

  /** The consumer on which a call is in flight. */
  function InFlight(pc: Pc): Option<nat> {
    if pc.DeregWantList? || pc.DeregWantStatus? || pc.DeregWantSlot? || pc.DeregBody?
       || pc.DeregReleaseList? || pc.DeregReleaseSlot?
       || pc.SetWantSlot? || pc.SetCheck? || pc.SetWantStatus? || pc.SetBody? || pc.SetFinish?
       || pc.UpdWantStatus? || pc.UpdWantSlot? || pc.UpdBody? || pc.UpdRelease?
       || pc.WaitWantStatus? || pc.WaitHold? || pc.Waiting?
    then Some(pc.c) else None
  }

  predicate Free(threads: seq<Pc>, lock: Lock) {
    forall t :: 0 <= t < |threads| ==> lock !in Holds(threads[t])
  }

  predicate CanStep(s: State, t: nat) {
    && t < |s.threads| && !s.threads[t].Idle?
    && (Wants(s.slots, s.threads[t]).Some? ==> Free(s.threads, Wants(s.slots, s.threads[t]).value))
  }

  function AsConsumer(slot: Slot): Consumer { Consumer(slot.memUsed, slot.flag) }

  /** A forced spill of an unspillable consumer. */
  predicate Panics(s: State, pc: Pc) {
    pc.UpdBody? && pc.c < |s.slots| && pc.change.ForceSpill? && !s.slots[pc.c].flag
  }

  /** The asserts on the way. */
  predicate AssertsHold(s: State, pc: Pc) {
    && (pc.DeregBody? || pc.SetCheck? || pc.SetBody? || pc.SetFinish? || pc.UpdBody? ==> pc.c < |s.slots|)
    && (pc.DeregBody? ==> s.slots[pc.c].registered && CanDeregister(s.status, AsConsumer(s.slots[pc.c])))
    && (pc.SetBody? ==> CanSetSpillable(s.status, AsConsumer(s.slots[pc.c]), pc.spillable))
    && (pc.UpdBody? && !Panics(s, pc) ==> CanUpdate(s.status, AsConsumer(s.slots[pc.c]), pc.change))
  }

  /** The next place of a thread. `choice` resolves what the model does not determine: whether an
      update has to wait, and whether a wait goes on. */
  function NextPc(s: State, pc: Pc, choice: bool): Pc
    requires AssertsHold(s, pc)
  {
    match pc
    case Idle => Idle
    case RegWantList(b) => RegWantStatus(b)
    case RegWantStatus(b) => RegBody(b)
    case RegBody(_) => RegRelease
    case RegRelease => Idle
    case DeregWantList(c) => DeregWantStatus(c)
    case DeregWantStatus(c) => DeregWantSlot(c)
    case DeregWantSlot(c) => DeregBody(c)
    case DeregBody(c) => DeregReleaseList(c)
    case DeregReleaseList(c) => DeregReleaseSlot(c)
    case DeregReleaseSlot(_) => Idle
    case SetWantSlot(c, b) => SetCheck(c, b)
    case SetCheck(c, b) => if s.slots[c].flag == b then Idle else SetWantStatus(c, b)
    case SetWantStatus(c, b) => SetBody(c, b)
    case SetBody(c, b) => SetFinish(c, b)
    case SetFinish(_, _) => Idle
    case UpdWantStatus(c, ch) => UpdWantSlot(c, ch)
    case UpdWantSlot(c, ch) => UpdBody(c, ch)
    case UpdBody(c, ch) => if Panics(s, pc) then Idle else UpdRelease(c)
    case UpdRelease(c) => if choice then WaitWantStatus(c) else Idle
    case WaitWantStatus(c) => WaitHold(c)
    case WaitHold(c) => if choice then Waiting(c) else Idle
    case Waiting(c) => WaitWantStatus(c)
    case DumpWantStatus => DumpHold
    case DumpHold => DumpWantList
    case DumpWantList => DumpAt(0)
    case DumpAt(i) => if i >= |s.slots| then Idle else if s.slots[i].registered then DumpSlot(i) else DumpAt(i + 1)
    case DumpSlot(i) => DumpAt(i + 1)
  }

  function NextStatus(s: State, pc: Pc): Status
    requires AssertsHold(s, pc)
  {
    match pc
    case RegBody(b) => Registered(s.status, b)
    case DeregBody(c) => Deregistered(s.status, AsConsumer(s.slots[c]))
    case SetBody(c, b) => SpillableSet(s.status, AsConsumer(s.slots[c]), b)
    case UpdBody(c, ch) =>
      if Panics(s, pc) then s.status else Updated(s.status, AsConsumer(s.slots[c]), ch)
    case _ => s.status
  }

  function NextSlots(s: State, pc: Pc): seq<Slot>
    requires AssertsHold(s, pc)
  {
    match pc
    case RegBody(b) => s.slots + [Slot(true, 0, b, b)]
    case DeregBody(c) => s.slots[c := s.slots[c].(registered := false)]
    case SetBody(c, b) => s.slots[c := s.slots[c].(counted := b)]
    case SetFinish(c, b) => s.slots[c := s.slots[c].(flag := b)]
    case UpdBody(c, ch) => s.slots[c := s.slots[c].(memUsed := Recorded(s.slots[c].memUsed, ch))]
    case _ => s.slots
  }

  function Advance(s: State, t: nat, choice: bool): State
    requires t < |s.threads| && AssertsHold(s, s.threads[t])
  {
    var pc := s.threads[t];
    State(NextStatus(s, pc),
          if pc.UpdBody? && pc.change.ForceSpill? && !Panics(s, pc) then s.forced + 1 else s.forced,
          NextSlots(s, pc),
          s.threads[t := NextPc(s, pc, choice)])
  }

  function FirstPc(call: Call): Pc {
    match call
    case Register(b) => RegWantList(b)
    case Deregister(c) => DeregWantList(c)
    case SetSpillable(c, b) => SetWantSlot(c, b)
    case Update(c, ch) => UpdWantStatus(c, ch)
    case Dump => DumpWantStatus
  }

  predicate Deregistering(pc: Pc) {
    pc.DeregWantList? || pc.DeregWantStatus? || pc.DeregWantSlot? || pc.DeregBody?
    || pc.DeregReleaseList? || pc.DeregReleaseSlot?
  }

  predicate Setting(pc: Pc) {
    pc.SetWantSlot? || pc.SetCheck? || pc.SetWantStatus? || pc.SetBody? || pc.SetFinish?
  }

  /** An update that has not come to waiting yet. */
  predicate Updating(pc: Pc) { pc.UpdWantStatus? || pc.UpdWantSlot? || pc.UpdBody? || pc.UpdRelease? }

  /** What callers observe about calls on one consumer: a deregistration overlaps no other call; and
      `set_spillable` overlaps no update and no deregistration. */
  datatype Discipline = Discipline(loneDeregistration: bool, noCrossing: bool)

  predicate MayCross(a: Pc, b: Pc) { Setting(a) && (Updating(b) || Deregistering(b)) }

  /** Two calls on one consumer may overlap. */
  predicate Compatible(d: Discipline, a: Pc, b: Pc) {
    && (d.loneDeregistration ==> !Deregistering(a) && !Deregistering(b))
    && (d.noCrossing ==> !MayCross(a, b) && !MayCross(b, a))
  }

  /** A call names a registered consumer and keeps the discipline. */
  predicate CanStart(s: State, t: nat, call: Call, d: Discipline) {
    && t < |s.threads| && s.threads[t].Idle?
    && var pc := FirstPc(call);
       InFlight(pc).Some? ==>
         && InFlight(pc).value < |s.slots| && s.slots[InFlight(pc).value].registered
         && forall u :: 0 <= u < |s.threads| && InFlight(s.threads[u]) == InFlight(pc) ==>
              Compatible(d, pc, s.threads[u])
  }

  /** One step: a call goes on; it fails an assert, and unwinding releases its locks and may leave the
      counters in any state; or a call starts. */
  ghost predicate Next(s: State, s': State, d: Discipline) {
    || (exists t: nat, choice ::
          CanStep(s, t) && AssertsHold(s, s.threads[t]) && s' == Advance(s, t, choice))
    || (exists t: nat ::
          CanStep(s, t) && !AssertsHold(s, s.threads[t]) && s'.threads == s.threads[t := Idle])
    || (exists t: nat, call ::
          CanStart(s, t, call, d) && s' == s.(threads := s.threads[t := FirstPc(call)]))
  }

  ghost predicate Init(s: State) {
    && s.status == Status(0, 0, 0, 0) && s.forced == 0 && s.slots == []
    && forall t :: 0 <= t < |s.threads| ==> s.threads[t].Idle?
  }

  // ---------------------------------------------------------------------------------------------
  // What every reachable state satisfies.

  ghost predicate Mutex(threads: seq<Pc>) {
    forall t, u :: 0 <= t < u < |threads| ==> Holds(threads[t]) !! Holds(threads[u])
  }

  predicate SameConsumer(a: Pc, b: Pc) { InFlight(a).Some? && InFlight(a) == InFlight(b) }

  ghost predicate Disciplined(d: Discipline, threads: seq<Pc>) {
    forall t, u :: 0 <= t < |threads| && 0 <= u < |threads| && t != u && SameConsumer(threads[t], threads[u]) ==>
      Compatible(d, threads[t], threads[u])
  }

  /** Deregistrations are alone on their consumers. */
  const LONE := Discipline(true, false)

  predicate Target(slots: seq<Slot>, pc: Pc) {
    && (InFlight(pc).Some? ==> InFlight(pc).value < |slots|)
    && (InFlight(pc).Some? && !pc.DeregReleaseList? && !pc.DeregReleaseSlot? ==> slots[InFlight(pc).value].registered)
    && (pc.SetFinish? ==> slots[pc.c].counted == pc.spillable)
  }

  ghost predicate Targets(s: State) {
    forall t :: 0 <= t < |s.threads| ==> Target(s.slots, s.threads[t])
  }

  predicate Finishing(threads: seq<Pc>, c: nat) {
    exists t :: 0 <= t < |threads| && threads[t].SetFinish? && threads[t].c == c
  }

  ghost predicate Flags(s: State) {
    forall c :: 0 <= c < |s.slots| && s.slots[c].flag != s.slots[c].counted ==> Finishing(s.threads, c)
  }

  function SlotOne(x: Slot): nat { if x.registered then 1 else 0 }

  function SlotUsed(x: Slot): nat { if x.registered then x.memUsed else 0 }

  function SlotSpillable(x: Slot): nat { if x.registered && x.counted then x.memUsed else 0 }

  function SlotSpillableOne(x: Slot): nat { if x.registered && x.counted then 1 else 0 }

  ghost predicate Counted(st: Status, slots: seq<Slot>, forced: nat) {
    && st.numConsumers == Sum(SlotOne, slots)
    && st.totalUsed == Sum(SlotUsed, slots) + forced
    && st.memSpillables == Sum(SlotSpillable, slots) + forced
    && st.numSpillables == Sum(SlotSpillableOne, slots)
  }

  ghost predicate Inv(s: State) {
    Mutex(s.threads) && Disciplined(LONE, s.threads) && Targets(s) && Flags(s) && Counted(s.status, s.slots, s.forced)
  }

  // ---------------------------------------------------------------------------------------------
  // The counters.

  lemma SumSlot(slots: seq<Slot>, c: nat, x: Slot)
    requires c < |slots|
    ensures Sum(SlotOne, slots[c := x]) == Sum(SlotOne, slots) - SlotOne(slots[c]) + SlotOne(x)
    ensures Sum(SlotUsed, slots[c := x]) == Sum(SlotUsed, slots) - SlotUsed(slots[c]) + SlotUsed(x)
    ensures Sum(SlotSpillable, slots[c := x]) == Sum(SlotSpillable, slots) - SlotSpillable(slots[c]) + SlotSpillable(x)
    ensures Sum(SlotSpillableOne, slots[c := x]) ==
            Sum(SlotSpillableOne, slots) - SlotSpillableOne(slots[c]) + SlotSpillableOne(x)
    ensures Sum(SlotOne, slots) >= SlotOne(slots[c]) && Sum(SlotUsed, slots) >= SlotUsed(slots[c])
    ensures Sum(SlotSpillable, slots) >= SlotSpillable(slots[c])
    ensures Sum(SlotSpillableOne, slots) >= SlotSpillableOne(slots[c])
  {
    SumUpdate(SlotOne, slots, c, x);
    SumUpdate(SlotUsed, slots, c, x);
    SumUpdate(SlotSpillable, slots, c, x);
    SumUpdate(SlotSpillableOne, slots, c, x);
  }

  /** The places at which a call reads the consumer it works on. */
  predicate AtConsumer(pc: Pc) {
    pc.DeregBody? || pc.SetCheck? || pc.SetBody? || pc.UpdBody?
  }

  /** While another call holds the consumer's lock, no `set_spillable` is about to write its flag. */
  lemma NobodyFinishes(threads: seq<Pc>, t: nat, c: nat)
    requires Mutex(threads) && t < |threads| && SlotLock(c) in Holds(threads[t]) && !threads[t].SetFinish?
    ensures !Finishing(threads, c)
  {
    forall u | 0 <= u < |threads| ensures !(threads[u].SetFinish? && threads[u].c == c) {
      if u != t { assert Holds(threads[t]) !! Holds(threads[u]); }
    }
  }

  /** There, the consumer's flag is the one that is counted. */
  lemma FlagIsCounted(s: State, t: nat)
    requires Inv(s) && t < |s.threads| && AtConsumer(s.threads[t])
    ensures s.threads[t].c < |s.slots| && s.slots[s.threads[t].c].registered
    ensures s.slots[s.threads[t].c].flag == s.slots[s.threads[t].c].counted
  {
    hide Sum, Disciplined;
    var pc := s.threads[t];
    assert Target(s.slots, pc) && InFlight(pc) == Some(pc.c) && SlotLock(pc.c) in Holds(pc);
    NobodyFinishes(s.threads, t, pc.c);
  }

  /** No assert fires in any state that satisfies the invariant. */
  lemma AssertsNeverFire(s: State, t: nat)
    requires Inv(s) && t < |s.threads|
    ensures AssertsHold(s, s.threads[t])
    ensures s.threads[t].UpdBody? && s.slots[s.threads[t].c].flag ==>
      Updated(s.status, AsConsumer(s.slots[s.threads[t].c]), s.threads[t].change).numSpillables >= 1
  {
    hide Sum;
    var pc := s.threads[t];
    assert Target(s.slots, pc);
    if AtConsumer(pc) {
      FlagIsCounted(s, t);
      SumSlot(s.slots, pc.c, s.slots[pc.c]);
    }
  }

  lemma CountedRegister(s: State, b: bool)
    requires Counted(s.status, s.slots, s.forced)
    ensures Counted(Registered(s.status, b), s.slots + [Slot(true, 0, b, b)], s.forced)
  {
    hide Sum;
    var x := Slot(true, 0, b, b);
    SumPush(SlotOne, s.slots, x);
    SumPush(SlotUsed, s.slots, x);
    SumPush(SlotSpillable, s.slots, x);
    SumPush(SlotSpillableOne, s.slots, x);
  }

  lemma CountedAtConsumer(s: State, t: nat, choice: bool)
    requires Inv(s) && t < |s.threads| && AssertsHold(s, s.threads[t]) && AtConsumer(s.threads[t])
    ensures var s' := Advance(s, t, choice); Counted(s'.status, s'.slots, s'.forced)
  {
    hide Sum, Mutex, Disciplined, Flags, Targets, NextPc;
    FlagIsCounted(s, t);
    var pc := s.threads[t];
    SumSlot(s.slots, pc.c, NextSlots(s, pc)[pc.c]);
  }

  lemma CountedStep(s: State, t: nat, choice: bool)
    requires Inv(s) && t < |s.threads| && AssertsHold(s, s.threads[t])
    ensures var s' := Advance(s, t, choice); Counted(s'.status, s'.slots, s'.forced)
  {
    hide Sum, Mutex, Disciplined, Flags, Targets, NextPc;
    var pc := s.threads[t];
    if AtConsumer(pc) {
      CountedAtConsumer(s, t, choice);
    } else if pc.RegBody? {
      CountedRegister(s, pc.spillable);
    } else if pc.SetFinish? {
      SumSlot(s.slots, pc.c, s.slots[pc.c].(flag := pc.spillable));
    }
  }

  // ---------------------------------------------------------------------------------------------
  // The other parts of the invariant.

  lemma HoldsGrow(s: State, pc: Pc, choice: bool)
    requires AssertsHold(s, pc)
    ensures Holds(NextPc(s, pc, choice)) <=
            Holds(pc) + (if Wants(s.slots, pc).Some? then {Wants(s.slots, pc).value} else {})
  {
  }

  /** `next` is a later place of the call at `pc`, or the end of it. */
  predicate Continues(pc: Pc, next: Pc) {
    && (InFlight(next).Some? ==> InFlight(next) == InFlight(pc))
    && (Deregistering(next) ==> Deregistering(pc)) && (Setting(next) ==> Setting(pc))
    && (Updating(next) ==> Updating(pc))
  }

  lemma NextContinues(s: State, pc: Pc, choice: bool)
    requires AssertsHold(s, pc)
    ensures Continues(pc, NextPc(s, pc, choice))
  {
  }

  lemma DisciplineKept(d: Discipline, threads: seq<Pc>, t: nat, next: Pc)
    requires Disciplined(d, threads) && t < |threads| && Continues(threads[t], next)
    ensures Disciplined(d, threads[t := next])
  {
    hide InFlight, Deregistering, Setting, Updating;
    var after := threads[t := next];
    forall u, v | 0 <= u < |after| && 0 <= v < |after| && u != v && SameConsumer(after[u], after[v])
      ensures Compatible(d, after[u], after[v])
    {
      assert SameConsumer(threads[u], threads[v]);
    }
  }

  lemma MutexStep(s: State, t: nat, choice: bool)
    requires Mutex(s.threads) && CanStep(s, t) && AssertsHold(s, s.threads[t])
    ensures Mutex(Advance(s, t, choice).threads)
  {
    hide Holds, NextPc, Wants, NextStatus, NextSlots;
    HoldsGrow(s, s.threads[t], choice);
    var threads := Advance(s, t, choice).threads;
    forall u, v | 0 <= u < v < |threads| ensures Holds(threads[u]) !! Holds(threads[v]) {
      assert Holds(s.threads[u]) !! Holds(s.threads[v]);
    }
  }

  /** A step leaves the consumers of all other calls alone. */
  lemma SlotsKept(s: State, t: nat, c: nat)
    requires t < |s.threads| && AssertsHold(s, s.threads[t]) && c < |s.slots|
    ensures |NextSlots(s, s.threads[t])| >= |s.slots|
    ensures InFlight(s.threads[t]) != Some(c) ==> NextSlots(s, s.threads[t])[c] == s.slots[c]
  {
  }

  lemma TargetStep(s: State, t: nat, choice: bool)
    requires Inv(s) && t < |s.threads| && AssertsHold(s, s.threads[t])
    ensures Target(NextSlots(s, s.threads[t]), NextPc(s, s.threads[t], choice))
  {
    hide Sum, Mutex, Disciplined, Flags, Counted;
    assert Target(s.slots, s.threads[t]);
  }

  /** A step leaves alone what another call on the same consumer relies on. */
  lemma OtherTarget(s: State, t: nat, u: nat)
    requires Inv(s) && t < |s.threads| && u < |s.threads| && t != u && AssertsHold(s, s.threads[t])
    ensures Target(NextSlots(s, s.threads[t]), s.threads[u])
  {
    hide Sum, Flags, Counted;
    var a, b := s.threads[t], s.threads[u];
    assert Target(s.slots, b);
    if InFlight(b).Some? {
      SlotsKept(s, t, InFlight(b).value);
      if SameConsumer(b, a) {
        assert Compatible(LONE, b, a);
        assert Holds(a) !! Holds(b);
      }
    }
  }

  lemma TargetsStep(s: State, t: nat, choice: bool)
    requires Inv(s) && t < |s.threads| && AssertsHold(s, s.threads[t])
    ensures Targets(Advance(s, t, choice))
  {
    hide Inv, Target, AssertsHold, NextPc, NextSlots, NextStatus;
    var s' := Advance(s, t, choice);
    TargetStep(s, t, choice);
    forall u | 0 <= u < |s'.threads| ensures Target(s'.slots, s'.threads[u]) {
      if u != t {
        OtherTarget(s, t, u);
      }
    }
  }

  /** What a step does to the two flags of a consumer. */
  lemma FlagsMove(s: State, t: nat, c: nat, choice: bool)
    requires Inv(s) && t < |s.threads| && AssertsHold(s, s.threads[t]) && c < |NextSlots(s, s.threads[t])|
    ensures
      var pc, x := s.threads[t], NextSlots(s, s.threads[t])[c];
      x.flag != x.counted ==>
        || (pc.SetBody? && pc.c == c && NextPc(s, pc, choice) == SetFinish(c, pc.spillable))
        || (c < |s.slots| && s.slots[c].flag != s.slots[c].counted && !(pc.SetFinish? && pc.c == c))
  {
    hide Sum, Mutex, Disciplined, Flags, Counted;
    assert Target(s.slots, s.threads[t]);
  }

  lemma FlagsStep(s: State, t: nat, choice: bool)
    requires Inv(s) && t < |s.threads| && AssertsHold(s, s.threads[t])
    ensures Flags(Advance(s, t, choice))
  {
    hide Sum, Mutex, Disciplined, Targets, Counted, NextStatus, NextSlots, NextPc, AssertsHold;
    var s', pc := Advance(s, t, choice), s.threads[t];
    forall c | 0 <= c < |s'.slots| && s'.slots[c].flag != s'.slots[c].counted
      ensures Finishing(s'.threads, c)
    {
      FlagsMove(s, t, c, choice);
      if !(s'.threads[t].SetFinish? && s'.threads[t].c == c) {
        var u :| 0 <= u < |s.threads| && s.threads[u].SetFinish? && s.threads[u].c == c;
        assert s'.threads[u] == s.threads[u];
      }
    }
  }

  lemma InvStep(s: State, t: nat, choice: bool)
    requires Inv(s) && CanStep(s, t) && AssertsHold(s, s.threads[t])
    ensures Inv(Advance(s, t, choice))
  {
    hide Mutex, Disciplined, Targets, Flags, Counted, NextPc, NextSlots, NextStatus;
    MutexStep(s, t, choice);
    NextContinues(s, s.threads[t], choice);
    DisciplineKept(LONE, s.threads, t, NextPc(s, s.threads[t], choice));
    TargetsStep(s, t, choice);
    FlagsStep(s, t, choice);
    CountedStep(s, t, choice);
  }

  lemma DisciplineStarts(d: Discipline, s: State, t: nat, call: Call)
    requires Disciplined(d, s.threads) && CanStart(s, t, call, d)
    ensures Disciplined(d, s.threads[t := FirstPc(call)])
  {
    hide InFlight, Deregistering, Setting, Updating, FirstPc;
    var after := s.threads[t := FirstPc(call)];
    forall u, v | 0 <= u < |after| && 0 <= v < |after| && u != v && SameConsumer(after[u], after[v])
      ensures Compatible(d, after[u], after[v])
    {
      if u != t && v != t { assert SameConsumer(s.threads[u], s.threads[v]); }
    }
  }

  lemma LoneStart(s: State, t: nat, call: Call, d: Discipline)
    requires CanStart(s, t, call, d) && d.loneDeregistration
    ensures CanStart(s, t, call, LONE)
  {
    hide Deregistering, Setting, Updating, FirstPc;
  }

  /** A call that starts holds nothing and has its consumer. */
  lemma FreshCall(s: State, t: nat, call: Call)
    requires CanStart(s, t, call, LONE)
    ensures Holds(FirstPc(call)) == {} && !FirstPc(call).SetFinish? && Target(s.slots, FirstPc(call))
  {
    hide Compatible;
  }

  lemma InvStart(s: State, t: nat, call: Call)
    requires Inv(s) && CanStart(s, t, call, LONE)
    ensures Inv(s.(threads := s.threads[t := FirstPc(call)]))
  {
    DisciplineStarts(LONE, s, t, call);
    FreshCall(s, t, call);
    hide Sum, Counted, Disciplined, InFlight, Holds, Compatible, FirstPc;
    var s' := s.(threads := s.threads[t := FirstPc(call)]);
    forall c | 0 <= c < |s'.slots| && s'.slots[c].flag != s'.slots[c].counted
      ensures Finishing(s'.threads, c)
    {
      var u :| 0 <= u < |s.threads| && s.threads[u].SetFinish? && s.threads[u].c == c;
      assert s'.threads[u] == s.threads[u];
    }
  }

  // ---------------------------------------------------------------------------------------------
  // Every run.

  ghost predicate Run(states: seq<State>, d: Discipline) {
    && states != [] && Init(states[0])
    && forall i :: 0 <= i < |states| - 1 ==> Next(states[i], states[i + 1], d)
  }

  lemma InvInit(s: State)
    requires Init(s)
    ensures Inv(s)
  {
  }

  lemma InvNext(s: State, s': State, d: Discipline)
    requires Inv(s) && Next(s, s', d) && d.loneDeregistration
    ensures Inv(s')
  {
    hide Inv, Advance, FirstPc;
    forall t: nat | t < |s.threads| ensures AssertsHold(s, s.threads[t]) { AssertsNeverFire(s, t); }
    if t: nat, choice :| CanStep(s, t) && AssertsHold(s, s.threads[t]) && s' == Advance(s, t, choice) {
      InvStep(s, t, choice);
    } else {
      var t: nat, call :| CanStart(s, t, call, d) && s' == s.(threads := s.threads[t := FirstPc(call)]);
      LoneStart(s, t, call, d);
      InvStart(s, t, call);
    }
  }

  /** In every run in which deregistrations are alone on their consumers, whatever else overlaps, the
      counters are right up to the drift of the forced spills, and no assert fires anywhere. */
  lemma {:induction false} RunSafe(states: seq<State>, d: Discipline, i: nat)
    requires Run(states, d) && d.loneDeregistration && i < |states|
    ensures Inv(states[i])
    ensures forall t :: 0 <= t < |states[i].threads| ==> AssertsHold(states[i], states[i].threads[t])
    decreases i
  {
    hide Inv, AssertsHold, Next;
    if i == 0 {
      InvInit(states[0]);
    } else {
      RunSafe(states, d, i - 1);
      assert Next(states[i - 1], states[i - 1 + 1], d);
      InvNext(states[i - 1], states[i], d);
    }
    forall t | 0 <= t < |states[i].threads| ensures AssertsHold(states[i], states[i].threads[t]) {
      AssertsNeverFire(states[i], t);
    }
  }

  lemma IdleContinues(pc: Pc)
    ensures Continues(pc, Idle)
  {
  }

  lemma DisciplineNext(s: State, s': State, d: Discipline)
    requires Disciplined(d, s.threads) && Next(s, s', d)
    ensures Disciplined(d, s'.threads)
  {
    hide Disciplined, Continues, Wants, Free, AssertsHold, FirstPc, NextPc, NextSlots, NextStatus;
    if t: nat, choice :| CanStep(s, t) && AssertsHold(s, s.threads[t]) && s' == Advance(s, t, choice) {
      NextContinues(s, s.threads[t], choice);
      DisciplineKept(d, s.threads, t, NextPc(s, s.threads[t], choice));
    } else if t: nat :| CanStep(s, t) && !AssertsHold(s, s.threads[t]) && s'.threads == s.threads[t := Idle] {
      IdleContinues(s.threads[t]);
      DisciplineKept(d, s.threads, t, Idle);
    } else {
      var t: nat, call :| CanStart(s, t, call, d) && s' == s.(threads := s.threads[t := FirstPc(call)]);
      DisciplineStarts(d, s, t, call);
    }
  }

  lemma {:induction false} RunDisciplined(states: seq<State>, d: Discipline, i: nat)
    requires Run(states, d) && i < |states|
    ensures Disciplined(d, states[i].threads)
    decreases i
  {
    if i > 0 {
      hide Disciplined, Next;
      RunDisciplined(states, d, i - 1);
      assert Next(states[i - 1], states[i - 1 + 1], d);
      DisciplineNext(states[i - 1], states[i], d);
    }
  }

  // ---------------------------------------------------------------------------------------------
  // Deadlocks.

  /** Call `t` waits for a lock that call `u` holds. */
  predicate WaitsFor(s: State, t: nat, u: nat) {
    && t < |s.threads| && u < |s.threads| && Wants(s.slots, s.threads[t]).Some?
    && Wants(s.slots, s.threads[t]).value in Holds(s.threads[u])
  }

  predicate WaitsWithin(s: State, calls: set<nat>, t: nat) { exists u :: u in calls && WaitsFor(s, t, u) }

  /** These calls wait for nobody but one another. */
  ghost predicate WaitCycle(s: State, calls: set<nat>) {
    calls != {} && forall t :: t in calls ==> WaitsWithin(s, calls, t)
  }

  ghost predicate Deadlocked(s: State) { exists calls :: WaitCycle(s, calls) }

  /** A call is in progress. */
  predicate Busy(s: State) { exists t :: 0 <= t < |s.threads| && !s.threads[t].Idle? }

  /** `set_spillable` holds the consumer and wants the counters, while an update or a deregistration of the
      same consumer holds the counters and wants the consumer. */
  predicate Crossed(threads: seq<Pc>, t: nat, u: nat) {
    && t < |threads| && u < |threads| && threads[t].SetWantStatus?
    && (threads[u].UpdWantSlot? || threads[u].DeregWantSlot?) && threads[u].c == threads[t].c
  }

  /** A holder of a consumer's lock that waits is in `set_spillable`. */
  lemma SlotHolderWaits(slots: seq<Slot>, pc: Pc, c: nat)
    requires SlotLock(c) in Holds(pc) && Wants(slots, pc).Some?
    ensures pc.SetWantStatus? && pc.c == c
  {
  }

  /** A holder of the counters' lock that waits wants a consumer. */
  lemma StatusHolderWaits(slots: seq<Slot>, pc: Pc)
    requires StatusLock in Holds(pc) && Wants(slots, pc).Some?
    ensures (pc.UpdWantSlot? || pc.DeregWantSlot?) && Wants(slots, pc) == Some(SlotLock(pc.c))
  {
  }

  lemma ListHolderWaits(slots: seq<Slot>, pc: Pc)
    requires ListLock in Holds(pc)
    ensures Wants(slots, pc) != Some(ListLock)
  {
  }

  lemma Awaited(s: State, calls: set<nat>, t: nat) returns (u: nat)
    requires WaitCycle(s, calls) && t in calls
    ensures u in calls && WaitsFor(s, t, u)
  {
    hide WaitsFor;
    assert WaitsWithin(s, calls, t);
    u :| u in calls && WaitsFor(s, t, u);
  }

  /** From the holder of the counters' lock on, the cycle closes at once. */
  lemma StatusHolderCrosses(s: State, calls: set<nat>, u: nat)
    requires WaitCycle(s, calls)
    requires u in calls && u < |s.threads| && StatusLock in Holds(s.threads[u])
    ensures exists t, v :: Crossed(s.threads, t, v)
  {
    hide Holds, Wants, WaitCycle;
    var v := Awaited(s, calls, u);
    StatusHolderWaits(s.slots, s.threads[u]);
    var w := Awaited(s, calls, v);
    SlotHolderWaits(s.slots, s.threads[v], s.threads[u].c);
    assert Crossed(s.threads, v, u);
  }

  lemma ForTheCounters(s: State, calls: set<nat>, t: nat, c: nat) returns (u: nat)
    requires WaitCycle(s, calls) && t in calls && t < |s.threads|
    requires SlotLock(c) in Holds(s.threads[t])
    ensures u in calls && u < |s.threads| && StatusLock in Holds(s.threads[u])
  {
    hide Holds, WaitCycle;
    u := Awaited(s, calls, t);
    SlotHolderWaits(s.slots, s.threads[t], c);
  }

  lemma NotForTheList(s: State, calls: set<nat>, t: nat) returns (u: nat)
    requires WaitCycle(s, calls) && t in calls && t < |s.threads|
    requires Wants(s.slots, s.threads[t]) != Some(ListLock)
    ensures u in calls && u < |s.threads| && StatusLock in Holds(s.threads[u])
  {
    hide Holds, Wants, WaitCycle;
    u := Awaited(s, calls, t);
    var lock := Wants(s.slots, s.threads[t]).value;
    if lock.SlotLock? {
      u := ForTheCounters(s, calls, u, lock.consumer);
    }
  }

  /** Every cycle of waiting calls contains a holder of the counters' lock. */
  lemma SomeoneHoldsStatus(s: State, calls: set<nat>, t: nat) returns (u: nat)
    requires WaitCycle(s, calls) && t in calls
    ensures u in calls && u < |s.threads| && StatusLock in Holds(s.threads[u])
  {
    hide Holds, Wants, WaitCycle;
    u := Awaited(s, calls, t);
    var lock := Wants(s.slots, s.threads[t]).value;
    if lock.ListLock? {
      ListHolderWaits(s.slots, s.threads[u]);
      u := NotForTheList(s, calls, u);
    } else if lock.SlotLock? {
      u := ForTheCounters(s, calls, u, lock.consumer);
    }
  }

  lemma CycleIsCrossed(s: State, calls: set<nat>)
    requires WaitCycle(s, calls)
    ensures exists t, u :: Crossed(s.threads, t, u)
  {
    hide WaitsWithin, Crossed;
    var t :| t in calls;
    var u := SomeoneHoldsStatus(s, calls, t);
    StatusHolderCrosses(s, calls, u);
  }

  lemma CrossedWait(s: State, t: nat, u: nat)
    requires Crossed(s.threads, t, u)
    ensures WaitsFor(s, t, u) && WaitsFor(s, u, t) && !CanStep(s, t) && !CanStep(s, u)
  {
  }

  lemma CrossedIsCycle(s: State, t: nat, u: nat)
    requires Crossed(s.threads, t, u)
    ensures WaitCycle(s, {t, u})
  {
    CrossedWait(s, t, u);
    hide WaitsFor;
    var calls: set<nat> := {t, u};
    assert u in calls && t in calls;
    assert WaitsWithin(s, calls, t) && WaitsWithin(s, calls, u);
  }

  /** In any state whatever, calls are deadlocked if and only if two of them are crossed. */
  lemma DeadlockedExactly(s: State)
    ensures Deadlocked(s) <==> exists t, u :: Crossed(s.threads, t, u)
  {
    hide WaitCycle, Crossed;
    if Deadlocked(s) {
      var calls: set<nat> :| WaitCycle(s, calls);
      CycleIsCrossed(s, calls);
    }
    if t, u :| Crossed(s.threads, t, u) {
      CrossedIsCycle(s, t, u);
    }
  }

  /** When a call is in progress and none can go on, some calls are deadlocked. */
  lemma StuckIsDeadlocked(s: State)
    requires Busy(s) && forall u: nat :: !CanStep(s, u)
    ensures Deadlocked(s)
  {
    hide Wants;
    var calls: set<nat> := set u: nat | u < |s.threads| && !s.threads[u].Idle?;
    forall u | u in calls ensures WaitsWithin(s, calls, u) {
      assert !CanStep(s, u);
      var lock := Wants(s.slots, s.threads[u]).value;
      var v: nat :| v < |s.threads| && lock in Holds(s.threads[v]);
      assert v in calls && WaitsFor(s, u, v);
    }
    var t: nat :| t < |s.threads| && !s.threads[t].Idle?;
    assert t in calls;
    assert WaitCycle(s, calls);
  }

  /** No step of any call, and no new call, parts a crossed pair. */
  lemma CrossedStays(s: State, s': State, d: Discipline, t: nat, u: nat)
    requires Crossed(s.threads, t, u) && Next(s, s', d)
    ensures Crossed(s'.threads, t, u)
  {
    hide Wants, Holds, NextPc, NextStatus, NextSlots, AssertsHold, FirstPc;
    CrossedWait(s, t, u);
  }

  lemma {:induction false} RunCrossedStays(states: seq<State>, d: Discipline, i: nat, j: nat, t: nat, u: nat)
    requires Run(states, d) && i <= j < |states| && Crossed(states[i].threads, t, u)
    ensures Crossed(states[j].threads, t, u)
    decreases j
  {
    hide Next, Crossed;
    if i < j {
      RunCrossedStays(states, d, i, j - 1, t, u);
      assert Next(states[j - 1], states[j - 1 + 1], d);
      CrossedStays(states[j - 1], states[j], d, t, u);
    }
  }

  /** In every run, whether or not calls on one consumer overlap: as long as no two calls are crossed, some
      call in progress can go on; two crossed calls are blocked in every later state. */
  lemma RunDeadlocksExactly(states: seq<State>, d: Discipline, i: nat)
    requires Run(states, d) && i < |states|
    ensures Deadlocked(states[i]) <==> exists t, u :: Crossed(states[i].threads, t, u)
    ensures Busy(states[i]) && !Deadlocked(states[i]) ==> exists u: nat :: CanStep(states[i], u)
    ensures forall t, u, j :: i <= j < |states| && Crossed(states[i].threads, t, u) ==>
      Crossed(states[j].threads, t, u) && !CanStep(states[j], t) && !CanStep(states[j], u)
  {
    hide CanStep, Crossed, Deadlocked, Run;
    DeadlockedExactly(states[i]);
    if Busy(states[i]) && forall u: nat :: !CanStep(states[i], u) {
      StuckIsDeadlocked(states[i]);
    }
    forall t, u, j | i <= j < |states| && Crossed(states[i].threads, t, u)
      ensures Crossed(states[j].threads, t, u) && !CanStep(states[j], t) && !CanStep(states[j], u)
    {
      RunCrossedStays(states, d, i, j, t, u);
      CrossedWait(states[j], t, u);
    }
  }

  lemma CrossedOverlap(threads: seq<Pc>, t: nat, u: nat, d: Discipline)
    requires Disciplined(d, threads) && d.noCrossing
    ensures !Crossed(threads, t, u)
  {
    if Crossed(threads, t, u) {
      assert SameConsumer(threads[t], threads[u]);
    }
  }

  /** In every run in which `set_spillable` overlaps no update and no deregistration of its consumer,
      whatever else overlaps, some call in progress can always go on. */
  lemma RunDeadlockFree(states: seq<State>, d: Discipline, i: nat)
    requires Run(states, d) && d.noCrossing && i < |states| && Busy(states[i])
    ensures exists u: nat :: CanStep(states[i], u)
  {
    hide Run, CanStep, Disciplined, Crossed, Deadlocked;
    RunDisciplined(states, d, i);
    forall t, u ensures !Crossed(states[i].threads, t, u) { CrossedOverlap(states[i].threads, t, u, d); }
    RunDeadlocksExactly(states, d, i);
  }

  // ---------------------------------------------------------------------------------------------
  // Runs that break a discipline. Two threads; one moves while the other holds nothing it wants.

  lemma Starts(s: State, t: nat, other: Pc, call: Call, s': State, d: Discipline)
    requires t < 2 && |s.threads| == 2 && s.threads[1 - t] == other && s.threads[t].Idle?
    requires
      var pc := FirstPc(call);
      InFlight(pc).Some? ==>
        && InFlight(pc).value < |s.slots| && s.slots[InFlight(pc).value].registered
        && (InFlight(other) == InFlight(pc) ==> Compatible(d, pc, other))
    requires s' == s.(threads := s.threads[t := FirstPc(call)])
    ensures Next(s, s', d)
  {
    hide Compatible, FirstPc;
    assert InFlight(s.threads[t]) == None;
    assert CanStart(s, t, call, d);
  }

  lemma Moves(s: State, t: nat, other: Pc, s': State, d: Discipline)
    requires t < 2 && |s.threads| == 2 && s.threads[1 - t] == other && !s.threads[t].Idle?
    requires AssertsHold(s, s.threads[t]) && s' == Advance(s, t, false)
    requires
      var wanted := Wants(s.slots, s.threads[t]);
      wanted.Some? ==> wanted.value !in Holds(s.threads[t]) && wanted.value !in Holds(other)
    ensures Next(s, s', d)
  {
    hide Holds, Wants, Advance, AssertsHold;
    assert CanStep(s, t);
  }

  function Alone(used: nat, a: Pc, b: Pc): State {
    State(Status(1, used, 0, 0), 0, [Slot(true, used, false, false)], [a, b])
  }

  const START := State(Status(0, 0, 0, 0), 0, [], [Idle, Idle])

  ghost predicate Chain(states: seq<State>, d: Discipline) {
    forall i :: 0 <= i < |states| - 1 ==> Next(states[i], states[i + 1], d)
  }

  lemma ChainJoin(a: seq<State>, b: seq<State>, d: Discipline)
    requires a != [] && b != [] && a[|a| - 1] == b[0] && Chain(a, d) && Chain(b, d)
    ensures Chain(a + b[1..], d)
  {
    hide Next;
    var all := a + b[1..];
    forall i | 0 <= i < |all| - 1 ensures Next(all[i], all[i + 1], d) {
      if i < |a| - 1 {
        assert Next(a[i], a[i + 1], d);
      } else {
        assert Next(b[i - (|a| - 1)], b[i - (|a| - 1) + 1], d);
        assert all[i] == b[i - (|a| - 1)];
      }
    }
  }

  /** A consumer is registered. */
  function Registering(): seq<State> {
    [START,
     START.(threads := [RegWantList(false), Idle]),
     START.(threads := [RegWantStatus(false), Idle]),
     START.(threads := [RegBody(false), Idle]),
     Alone(0, RegRelease, Idle),
     Alone(0, Idle, Idle)]
  }

  lemma RegisteringBegins(d: Discipline)
    ensures forall i :: 0 <= i < 3 ==> Next(Registering()[i], Registering()[i + 1], d)
  {
    hide Next, Sum;
    var r := Registering();
    Starts(r[0], 0, Idle, Register(false), r[1], d);
    Moves(r[1], 0, Idle, r[2], d);
    Moves(r[2], 0, Idle, r[3], d);
  }

  lemma RegisteringEnds(d: Discipline)
    ensures forall i :: 3 <= i < 5 ==> Next(Registering()[i], Registering()[i + 1], d)
  {
    hide Next, Sum;
    var r := Registering();
    Moves(r[3], 0, Idle, r[4], d);
    Moves(r[4], 0, Idle, r[5], d);
  }

  lemma RegisteringRuns(d: Discipline)
    ensures Chain(Registering(), d)
  {
    hide Next;
    RegisteringBegins(d);
    RegisteringEnds(d);
  }

  /** `set_spillable` gets as far as wanting the counters. */
  function Opening(): seq<State> {
    [Alone(0, Idle, Idle), Alone(0, SetWantSlot(0, true), Idle), Alone(0, SetCheck(0, true), Idle),
     Alone(0, SetWantStatus(0, true), Idle)]
  }

  lemma OpeningRuns(d: Discipline)
    ensures Chain(Opening(), d)
  {
    hide Next, Sum;
    var r := Opening();
    Starts(r[0], 0, Idle, SetSpillable(0, true), r[1], d);
    Moves(r[1], 0, Idle, r[2], d);
    Moves(r[2], 0, Idle, r[3], d);
  }

  /** The other call runs until it wants the consumer. */
  function Ending(call: Call): seq<State> {
    var waiting := SetWantStatus(0, true);
    match call
    case Update(_, change) =>
      [Alone(0, waiting, Idle), Alone(0, waiting, UpdWantStatus(0, change)), Alone(0, waiting, UpdWantSlot(0, change))]
    case _ =>
      [Alone(0, waiting, Idle), Alone(0, waiting, DeregWantList(0)), Alone(0, waiting, DeregWantStatus(0)),
       Alone(0, waiting, DeregWantSlot(0))]
  }

  lemma EndingBegins(call: Call, d: Discipline)
    requires (call.Update? || call.Deregister?) && call.consumer == 0
    requires !d.noCrossing && (d.loneDeregistration ==> call.Update?)
    ensures Next(Ending(call)[0], Ending(call)[1], d)
  {
    hide Next, Sum;
    Starts(Ending(call)[0], 1, SetWantStatus(0, true), call, Ending(call)[1], d);
  }

  lemma EndingRuns(call: Call, d: Discipline)
    requires (call.Update? || call.Deregister?) && call.consumer == 0
    requires !d.noCrossing && (d.loneDeregistration ==> call.Update?)
    ensures Chain(Ending(call), d)
  {
    hide Next, Sum;
    var e, waiting := Ending(call), SetWantStatus(0, true);
    EndingBegins(call, d);
    if call.Update? {
      Moves(e[1], 1, waiting, e[2], d);
    } else {
      Moves(e[1], 1, waiting, e[2], d);
      Moves(e[2], 1, waiting, e[3], d);
    }
  }

  lemma ChainIsRun(states: seq<State>, d: Discipline)
    requires Chain(states, d) && states != [] && states[0] == START
    ensures Run(states, d)
  {
    hide Next;
  }

  /** Where nothing keeps `set_spillable` from overlapping it, any update can come to be crossed with it,
      and so can a deregistration that need not be alone. */
  lemma DeadlockReachable(call: Call, d: Discipline) returns (states: seq<State>)
    requires (call.Update? || call.Deregister?) && call.consumer == 0
    requires !d.noCrossing && (d.loneDeregistration ==> call.Update?)
    ensures states != [] && Run(states, d) && states[0] == START && Crossed(states[|states| - 1].threads, 0, 1)
  {
    hide Next, Chain;
    RegisteringRuns(d);
    OpeningRuns(d);
    EndingRuns(call, d);
    ChainJoin(Registering(), Opening(), d);
    var begun := Registering() + Opening()[1..];
    ChainJoin(begun, Ending(call), d);
    states := begun + Ending(call)[1..];
    ChainIsRun(states, d);
  }

  /** The consumer uses five bytes. */
  function Growing(): seq<State> {
    var five := Replace(5);
    [Alone(0, Idle, Idle), Alone(0, UpdWantStatus(0, five), Idle), Alone(0, UpdWantSlot(0, five), Idle),
     Alone(0, UpdBody(0, five), Idle), Alone(5, UpdRelease(0), Idle), Alone(5, Idle, Idle)]
  }

  lemma GrowingBegins(d: Discipline)
    ensures forall i :: 0 <= i < 3 ==> Next(Growing()[i], Growing()[i + 1], d)
  {
    hide Next, Sum;
    var r := Growing();
    Starts(r[0], 0, Idle, Update(0, Replace(5)), r[1], d);
    Moves(r[1], 0, Idle, r[2], d);
    Moves(r[2], 0, Idle, r[3], d);
  }

  lemma GrowingEnds(d: Discipline)
    ensures forall i :: 3 <= i < 5 ==> Next(Growing()[i], Growing()[i + 1], d)
  {
    hide Next, Sum;
    var r := Growing();
    Moves(r[3], 0, Idle, r[4], d);
    Moves(r[4], 0, Idle, r[5], d);
  }

  lemma GrowingRuns(d: Discipline)
    ensures Chain(Growing(), d)
  {
    hide Next;
    GrowingBegins(d);
    GrowingEnds(d);
  }

  function Gone(a: Pc, b: Pc): State { State(Status(0, 0, 0, 0), 0, [Slot(false, 5, false, false)], [a, b]) }

  /** An update to zero bytes starts, and a deregistration overtakes it. */
  function Overtaking(): seq<State> {
    var late := UpdWantStatus(0, Replace(0));
    [Alone(5, Idle, Idle), Alone(5, Idle, late), Alone(5, DeregWantList(0), late), Alone(5, DeregWantStatus(0), late),
     Alone(5, DeregWantSlot(0), late), Alone(5, DeregBody(0), late), Gone(DeregReleaseList(0), late)]
  }

  lemma OvertakingBegins(d: Discipline)
    requires !d.loneDeregistration
    ensures forall i :: 0 <= i < 2 ==> Next(Overtaking()[i], Overtaking()[i + 1], d)
  {
    hide Next, Sum;
    var r, late := Overtaking(), UpdWantStatus(0, Replace(0));
    Starts(r[0], 1, Idle, Update(0, Replace(0)), r[1], d);
    Starts(r[1], 0, late, Deregister(0), r[2], d);
  }

  lemma OvertakingEnds(d: Discipline)
    ensures forall i :: 2 <= i < 6 ==> Next(Overtaking()[i], Overtaking()[i + 1], d)
  {
    hide Next, Sum;
    var r, late := Overtaking(), UpdWantStatus(0, Replace(0));
    Moves(r[2], 0, late, r[3], d);
    Moves(r[3], 0, late, r[4], d);
    Moves(r[4], 0, late, r[5], d);
    Moves(r[5], 0, late, r[6], d);
  }

  lemma OvertakingRuns(d: Discipline)
    requires !d.loneDeregistration
    ensures Chain(Overtaking(), d)
  {
    hide Next;
    OvertakingBegins(d);
    OvertakingEnds(d);
  }

  /** The update comes to its body. */
  function Failing(): seq<State> {
    var zero := Replace(0);
    [Gone(DeregReleaseList(0), UpdWantStatus(0, zero)), Gone(DeregReleaseSlot(0), UpdWantStatus(0, zero)),
     Gone(Idle, UpdWantStatus(0, zero)), Gone(Idle, UpdWantSlot(0, zero)), Gone(Idle, UpdBody(0, zero))]
  }

  lemma FailingBegins(d: Discipline)
    ensures forall i :: 0 <= i < 2 ==> Next(Failing()[i], Failing()[i + 1], d)
  {
    hide Next, Sum;
    var r := Failing();
    Moves(r[0], 0, UpdWantStatus(0, Replace(0)), r[1], d);
    Moves(r[1], 0, UpdWantStatus(0, Replace(0)), r[2], d);
  }

  lemma FailingEnds(d: Discipline)
    ensures forall i :: 2 <= i < 4 ==> Next(Failing()[i], Failing()[i + 1], d)
  {
    hide Next, Sum;
    var r := Failing();
    Moves(r[2], 1, Idle, r[3], d);
    Moves(r[3], 1, Idle, r[4], d);
  }

  lemma FailingRuns(d: Discipline)
    ensures Chain(Failing(), d)
    ensures !AssertsHold(Gone(Idle, UpdBody(0, Replace(0))), UpdBody(0, Replace(0)))
  {
    hide Next;
    FailingBegins(d);
    FailingEnds(d);
  }

  /** Where a deregistration may overlap an update of its consumer, an assert can fail, even if
      `set_spillable` overlaps nothing: the update takes off what the deregistration took off before. */
  lemma AssertFails(d: Discipline) returns (states: seq<State>)
    requires !d.loneDeregistration
    ensures states != [] && Run(states, d) && states[0] == START
    ensures
      var last := states[|states| - 1];
      |last.threads| == 2 && CanStep(last, 1) && !AssertsHold(last, last.threads[1])
  {
    hide Next, Chain;
    RegisteringRuns(d);
    GrowingRuns(d);
    OvertakingRuns(d);
    FailingRuns(d);
    ChainJoin(Registering(), Growing(), d);
    var a := Registering() + Growing()[1..];
    ChainJoin(a, Overtaking(), d);
    var b := a + Overtaking()[1..];
    ChainJoin(b, Failing(), d);
    states := b + Failing()[1..];
    ChainIsRun(states, d);
    assert states[|states| - 1] == Gone(Idle, UpdBody(0, Replace(0)));
  }

  /** So a discipline keeps the asserts in every run if and only if deregistrations are alone. */
  lemma DisciplineExactly(d: Discipline)
    ensures (forall states: seq<State>, i, t :: Run(states, d) && 0 <= i < |states| && 0 <= t < |states[i].threads| ==>
               AssertsHold(states[i], states[i].threads[t]))
       <==> d.loneDeregistration
  {
    hide Run, AssertsHold;
    if d.loneDeregistration {
      forall states: seq<State>, i, t | Run(states, d) && 0 <= i < |states| && 0 <= t < |states[i].threads|
        ensures AssertsHold(states[i], states[i].threads[t])
      {
        RunSafe(states, d, i);
      }
    } else {
      var states := AssertFails(d);
    }
  }

  /** And it keeps some call going in every run if and only if `set_spillable` overlaps no update and no
      deregistration; where deregistrations are alone, overlapping updates are enough to block. */
  lemma DisciplineLive(d: Discipline)
    ensures (forall states: seq<State>, i :: Run(states, d) && 0 <= i < |states| ==> !Deadlocked(states[i]))
       <==> d.noCrossing
  {
    hide Run, Deadlocked, Crossed;
    if d.noCrossing {
      forall states: seq<State>, i | Run(states, d) && 0 <= i < |states| ensures !Deadlocked(states[i]) {
        RunDisciplined(states, d, i);
        forall t, u ensures !Crossed(states[i].threads, t, u) { CrossedOverlap(states[i].threads, t, u, d); }
        DeadlockedExactly(states[i]);
      }
    } else {
      var states := DeadlockReachable(Update(0, Replace(1)), d);
      DeadlockedExactly(states[|states| - 1]);
    }
  }
}
