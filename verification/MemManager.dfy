/** Memory accounting (`MemManager`): global counters kept in step with the consumers' own counters,
    and the decision to spill, to wait, or to go on.

    Amounts are natural numbers: sizes that approach 2^63 bytes are outside the model. */
module MemManager {

  datatype Status = Status(numConsumers: nat, totalUsed: nat, numSpillables: nat, memSpillables: nat)

  datatype Consumer = Consumer(memUsed: nat, spillable: bool)

  // ---------------------------------------------------------------------------------------------
  // What the counters count.

  function Used(c: Consumer): nat { c.memUsed }

  function SpillableUsed(c: Consumer): nat { if c.spillable then c.memUsed else 0 }

  function IsSpillable(c: Consumer): nat { if c.spillable then 1 else 0 }

  function Sum<T>(f: T -> nat, cs: seq<T>): nat {
    if cs == [] then 0 else Sum(f, cs[..|cs| - 1]) + f(cs[|cs| - 1])
  }

  /** The consumers use `totalUsed` less one byte for every forced spill so far: a forced spill
      reports one byte more than it records, to both counters. */
  ghost predicate Balanced(st: Status, cs: seq<Consumer>, forced: nat) {
    && st.numConsumers == |cs|
    && st.totalUsed == Sum(Used, cs) + forced
    && st.memSpillables == Sum(SpillableUsed, cs) + forced
    && st.numSpillables == Sum(IsSpillable, cs)
  }

  lemma {:induction false} SumUpdate<T>(f: T -> nat, cs: seq<T>, i: nat, c: T)
    requires i < |cs|
    ensures Sum(f, cs[i := c]) == Sum(f, cs) - f(cs[i]) + f(c)
    ensures Sum(f, cs) >= f(cs[i])
    decreases |cs|
  {
    var n := |cs| - 1;
    if i < n {
      assert cs[i := c][..n] == cs[..n][i := c];
      SumUpdate(f, cs[..n], i, c);
    } else {
      assert cs[i := c][..n] == cs[..n];
    }
  }

  lemma SumLast<T>(f: T -> nat, cs: seq<T>)
    requires cs != []
    ensures Sum(f, cs) == Sum(f, cs[..|cs| - 1]) + f(cs[|cs| - 1])
  {
  }

  lemma SumPush<T>(f: T -> nat, cs: seq<T>, c: T)
    ensures Sum(f, cs + [c]) == Sum(f, cs) + f(c)
  {
    assert (cs + [c])[..|cs|] == cs;
  }

  function SwapRemove<T>(xs: seq<T>, i: nat): seq<T>
    requires i < |xs|
  {
    xs[i := xs[|xs| - 1]][..|xs| - 1]
  }

  lemma SumSwapRemove(f: Consumer -> nat, cs: seq<Consumer>, i: nat)
    requires i < |cs|
    ensures Sum(f, SwapRemove(cs, i)) + f(cs[i]) == Sum(f, cs)
  {
    hide Sum;
    var last := cs[|cs| - 1];
    SumUpdate(f, cs, i, last);
    SumLast(f, cs[i := last]);
  }

  function UnspillableUsed(c: Consumer): nat { if c.spillable then 0 else c.memUsed }

  lemma {:induction false} SumSplit(cs: seq<Consumer>)
    ensures Sum(Used, cs) == Sum(SpillableUsed, cs) + Sum(UnspillableUsed, cs)
    decreases |cs|
  {
    if cs != [] { SumSplit(cs[..|cs| - 1]); }
  }

  /** The drift cancels: the difference of the two counters is exactly the memory that cannot be
      spilled. */
  lemma UnspillableMemory(st: Status, cs: seq<Consumer>, forced: nat)
    requires Balanced(st, cs, forced)
    ensures st.totalUsed - st.memSpillables == Sum(UnspillableUsed, cs)
  {
    SumSplit(cs);
  }

  // ---------------------------------------------------------------------------------------------
  // Steps on the counters.

  function Registered(st: Status, spillable: bool): Status {
    st.(numConsumers := st.numConsumers + 1,
        numSpillables := st.numSpillables + if spillable then 1 else 0)
  }

  /** The asserts of `deregister_consumer`. */
  predicate CanDeregister(st: Status, c: Consumer) {
    && st.totalUsed >= c.memUsed && st.numConsumers >= 1
    && (c.spillable ==> st.memSpillables >= c.memUsed && st.numSpillables >= 1)
  }

  function Deregistered(st: Status, c: Consumer): Status
    requires CanDeregister(st, c)
  {
    Status(st.numConsumers - 1, st.totalUsed - c.memUsed,
           if c.spillable then st.numSpillables - 1 else st.numSpillables,
           if c.spillable then st.memSpillables - c.memUsed else st.memSpillables)
  }

  /** The assert of `set_spillable`. */
  predicate CanSetSpillable(st: Status, c: Consumer, spillable: bool) {
    c.spillable && !spillable ==> st.memSpillables >= c.memUsed && st.numSpillables >= 1
  }

  function SpillableSet(st: Status, c: Consumer, spillable: bool): Status
    requires CanSetSpillable(st, c, spillable)
  {
    if c.spillable == spillable then st
    else if spillable then
      st.(numSpillables := st.numSpillables + 1, memSpillables := st.memSpillables + c.memUsed)
    else
      st.(numSpillables := st.numSpillables - 1, memSpillables := st.memSpillables - c.memUsed)
  }

  /** The three updaters. */
  datatype Change = Replace(newUsed: nat) | Adjust(diff: int) | ForceSpill

  /** The new amount an updater reports. */
  function Reported(old_: nat, change: Change): nat {
    match change
    case Replace(newUsed) => newUsed
    case Adjust(diff) => if diff > 0 then old_ + diff else if -diff >= old_ then 0 else old_ + diff
    case ForceSpill => old_ + 1
  }

  /** The amount it leaves in the consumer's own counter. */
  function Recorded(old_: nat, change: Change): nat {
    if change.ForceSpill? then old_ else Reported(old_, change)
  }

  /** The asserts of the update. */
  predicate CanUpdate(st: Status, c: Consumer, change: Change) {
    var diff := Reported(c.memUsed, change) - c.memUsed;
    st.totalUsed + diff >= 0 && (c.spillable ==> st.memSpillables + diff >= 0)
  }

  function Updated(st: Status, c: Consumer, change: Change): Status
    requires CanUpdate(st, c, change)
  {
    var diff := Reported(c.memUsed, change) - c.memUsed;
    st.(totalUsed := st.totalUsed + diff,
        memSpillables := if c.spillable then st.memSpillables + diff else st.memSpillables)
  }

  lemma RegisterBalanced(st: Status, cs: seq<Consumer>, forced: nat, spillable: bool)
    requires Balanced(st, cs, forced)
    ensures Balanced(Registered(st, spillable), cs + [Consumer(0, spillable)], forced)
  {
    SumPush(Used, cs, Consumer(0, spillable));
    SumPush(SpillableUsed, cs, Consumer(0, spillable));
    SumPush(IsSpillable, cs, Consumer(0, spillable));
  }

  lemma DeregisterBalanced(st: Status, cs: seq<Consumer>, forced: nat, i: nat)
    requires Balanced(st, cs, forced) && i < |cs|
    ensures CanDeregister(st, cs[i])
    ensures Balanced(Deregistered(st, cs[i]), SwapRemove(cs, i), forced)
  {
    SumSwapRemove(Used, cs, i);
    SumSwapRemove(SpillableUsed, cs, i);
    SumSwapRemove(IsSpillable, cs, i);
  }

  lemma SetSpillableBalanced(st: Status, cs: seq<Consumer>, forced: nat, i: nat, spillable: bool)
    requires Balanced(st, cs, forced) && i < |cs|
    ensures CanSetSpillable(st, cs[i], spillable)
    ensures Balanced(SpillableSet(st, cs[i], spillable), cs[i := cs[i].(spillable := spillable)], forced)
  {
    var c := cs[i].(spillable := spillable);
    SumUpdate(Used, cs, i, c);
    SumUpdate(SpillableUsed, cs, i, c);
    SumUpdate(IsSpillable, cs, i, c);
  }

  /** Every update keeps the balance; a forced spill of a spillable consumer adds one to the drift. */
  lemma UpdateBalanced(st: Status, cs: seq<Consumer>, forced: nat, i: nat, change: Change)
    requires Balanced(st, cs, forced) && i < |cs|
    requires change.ForceSpill? ==> cs[i].spillable
    ensures CanUpdate(st, cs[i], change)
    ensures Balanced(Updated(st, cs[i], change),
                     cs[i := cs[i].(memUsed := Recorded(cs[i].memUsed, change))],
                     if change.ForceSpill? then forced + 1 else forced)
    ensures cs[i].spillable ==> Updated(st, cs[i], change).numSpillables >= 1
    ensures Updated(st, cs[i], change).totalUsed >= Updated(st, cs[i], change).memSpillables
  {
    var c := cs[i].(memUsed := Recorded(cs[i].memUsed, change));
    SumSplit(cs[i := c]);
    SumUpdate(Used, cs, i, c);
    SumUpdate(SpillableUsed, cs, i, c);
    SumUpdate(IsSpillable, cs, i, c);
  }

  /** One forced spill of a consumer without memory counts one byte in both totals that nobody uses. */
  lemma ForcedSpillDrifts()
    ensures
      var st, cs := Status(1, 0, 1, 0), [Consumer(0, true)];
      && Balanced(st, cs, 0) && CanUpdate(st, cs[0], ForceSpill)
      && Updated(st, cs[0], ForceSpill) == Status(1, 1, 1, 1) && Recorded(0, ForceSpill) == 0
  {
    var cs := [Consumer(0, true)];
    assert cs[..0] == [];
    assert Sum(Used, cs) == 0 && Sum(SpillableUsed, cs) == 0 && Sum(IsSpillable, cs) == 1;
  }

  // ---------------------------------------------------------------------------------------------
  // The decision.

  datatype Operation = Spill | Wait | Nothing

  /** What is measured outside the manager: direct memory of the JVM, resident memory, its limit. */
  datatype Env = Env(jvmDirect: nat, procUsed: nat, procMax: nat)

  const MIN_TRIGGER_SIZE := 0x100_0000

  function SaturatingSub(a: nat, b: nat): nat { if a >= b then a - b else 0 }

  function Decide(total: nat, st: Status, spillable: bool, oldUsed: nat, newUsed: nat, forced: bool, env: Env)
    : Operation
    requires st.totalUsed >= st.memSpillables && st.numSpillables >= 1
  {
    var unspillable := st.totalUsed - st.memSpillables;
    var managed := SaturatingSub(SaturatingSub(total, env.jvmDirect), unspillable);
    var consumerMax := managed / st.numSpillables;
    var overflowed := st.totalUsed > managed || newUsed > consumerMax || env.procUsed > env.procMax;
    if forced || (overflowed && newUsed > MIN_TRIGGER_SIZE && newUsed > oldUsed) then
      if forced || (spillable && newUsed > consumerMax / 8) then Spill else Wait
    else Nothing
  }

  lemma DecideBounds(total: nat, st: Status, spillable: bool, oldUsed: nat, newUsed: nat, forced: bool, env: Env)
    requires st.totalUsed >= st.memSpillables && st.numSpillables >= 1
    ensures
      var op := Decide(total, st, spillable, oldUsed, newUsed, forced, env);
      if forced then op == Spill else op != Nothing ==> newUsed > MIN_TRIGGER_SIZE && newUsed > oldUsed
  {
  }

  /** What the spillable consumers share: the total less direct memory and the memory of the unspillable
      ones, and nothing when that is less than zero. */
  function Managed(total: nat, env: Env, cs: seq<Consumer>): nat {
    var taken := env.jvmDirect + Sum(UnspillableUsed, cs);
    if total >= taken then total - taken else 0
  }

  function Share(total: nat, env: Env, cs: seq<Consumer>): nat
    requires Sum(IsSpillable, cs) >= 1
  {
    Managed(total, env, cs) / Sum(IsSpillable, cs)
  }

  /** Memory is short: the total exceeds what is managed, the consumer its share, or the process its limit. */
  predicate Pressed(total: nat, env: Env, cs: seq<Consumer>, drift: nat, used: nat)
    requires Sum(IsSpillable, cs) >= 1
  {
    || Sum(Used, cs) + drift > Managed(total, env, cs)
    || used > Share(total, env, cs)
    || env.procUsed > env.procMax
  }

  /** An unforced update acts exactly when it grows past the trigger size under pressure, and spills exactly
      when the consumer also holds more than an eighth of its share. */
  lemma DecideExactly(
      total: nat, st: Status, cs: seq<Consumer>, drift: nat, oldUsed: nat, newUsed: nat, env: Env)
    requires Balanced(st, cs, drift) && st.numSpillables >= 1
    ensures st.totalUsed >= st.memSpillables && Sum(IsSpillable, cs) >= 1
    ensures
      var op := Decide(total, st, true, oldUsed, newUsed, false, env);
      && (op != Nothing <==>
            newUsed > oldUsed && newUsed > 16_777_216 && Pressed(total, env, cs, drift, newUsed))
      && (op == Spill <==> op != Nothing && newUsed > Share(total, env, cs) / 8)
  {
    hide Sum;
    UnspillableMemory(st, cs, drift);
  }

  // ---------------------------------------------------------------------------------------------
  // The manager.

  class MemConsumerInfo {
    var memUsed: nat
    var spillable: bool

    constructor (spillable: bool)
      ensures memUsed == 0 && this.spillable == spillable
    {
      memUsed, this.spillable := 0, spillable;
    }
  }

  ghost function Snapshot(infos: seq<MemConsumerInfo>): (cs: seq<Consumer>)
    reads infos
    ensures |cs| == |infos|
    ensures forall i :: 0 <= i < |infos| ==> cs[i] == Consumer(infos[i].memUsed, infos[i].spillable)
  {
    seq(|infos|, i requires 0 <= i < |infos| reads infos => Consumer(infos[i].memUsed, infos[i].spillable))
  }

  ghost predicate Distinct(infos: seq<MemConsumerInfo>) {
    forall i, j :: 0 <= i < j < |infos| ==> infos[i] != infos[j]
  }

  lemma RemovedDistinct(infos: seq<MemConsumerInfo>, i: nat)
    requires Distinct(infos) && i < |infos|
    ensures Distinct(SwapRemove(infos, i)) && infos[i] !in SwapRemove(infos, i)
    ensures forall j :: 0 <= j < |infos| && infos[j] == infos[i] ==> j == i
  {
  }

  class Manager {
    const total: nat
    var consumers: seq<MemConsumerInfo>
    var status: Status
    ghost var forcedSpills: nat

    ghost predicate Valid()
      reads this, consumers
    {
      Distinct(consumers) && Balanced(status, Snapshot(consumers), forcedSpills)
    }

    constructor (total: nat)
      ensures Valid() && this.total == total && consumers == [] && forcedSpills == 0
    {
      this.total := total;
      consumers := [];
      status := Status(0, 0, 0, 0);
      forcedSpills := 0;
    }

    method RegisterConsumer(spillable: bool) returns (info: MemConsumerInfo)
      requires Valid()
      modifies this`consumers, this`status
      ensures Valid() && fresh(info) && consumers == old(consumers) + [info]
      ensures info.memUsed == 0 && info.spillable == spillable
      ensures status == Registered(old(status), spillable)
    {
      hide Sum;
      ghost var cs := Snapshot(consumers);
      info := new MemConsumerInfo(spillable);
      consumers := consumers + [info];
      status := Registered(status, spillable);
      RegisterBalanced(old(status), cs, forcedSpills, spillable);
      assert Snapshot(consumers) == cs + [Consumer(0, spillable)];
    }

    /** None of the asserts fails, and the search finds the consumer. */
    method DeregisterConsumer(info: MemConsumerInfo)
      requires Valid() && info in consumers
      modifies this`consumers, this`status
      ensures Valid() && info !in consumers
      ensures exists i ::
        0 <= i < |old(consumers)| && old(consumers)[i] == info && consumers == SwapRemove(old(consumers), i)
    {
      hide Sum, Balanced, Distinct;
      ghost var cs := Snapshot(consumers);
      ghost var at :| 0 <= at < |consumers| && consumers[at] == info;
      DeregisterBalanced(status, cs, forcedSpills, at);
      RemovedDistinct(consumers, at);
      assert status.totalUsed >= info.memUsed;
      status := status.(numConsumers := status.numConsumers - 1, totalUsed := status.totalUsed - info.memUsed);
      if info.spillable {
        assert status.memSpillables >= info.memUsed;
        status := status.(numSpillables := status.numSpillables - 1,
                          memSpillables := status.memSpillables - info.memUsed);
      }
      for i := 0 to |consumers|
        invariant forall j :: 0 <= j < i ==> consumers[j] != info
        invariant consumers == old(consumers) && status == Deregistered(old(status), cs[at])
      {
        if consumers[i] == info {
          assert i == at;
          consumers := SwapRemove(consumers, i);
          assert Snapshot(consumers) == SwapRemove(cs, i);
          return;
        }
      }
      assert false;
    }

    method SetSpillable(info: MemConsumerInfo, spillable: bool)
      requires Valid() && info in consumers
      modifies this`status, info`spillable
      ensures Valid() && info.spillable == spillable
      ensures CanSetSpillable(old(status), old(Consumer(info.memUsed, info.spillable)), spillable)
      ensures status == SpillableSet(old(status), old(Consumer(info.memUsed, info.spillable)), spillable)
    {
      hide Sum, Balanced, Distinct;
      ghost var cs := Snapshot(consumers);
      ghost var at :| 0 <= at < |consumers| && consumers[at] == info;
      RemovedDistinct(consumers, at);
      SetSpillableBalanced(status, cs, forcedSpills, at, spillable);
      if info.spillable != spillable {
        if spillable {
          status := status.(numSpillables := status.numSpillables + 1,
                            memSpillables := status.memSpillables + info.memUsed);
        } else {
          assert status.memSpillables >= info.memUsed;
          status := status.(numSpillables := status.numSpillables - 1,
                            memSpillables := status.memSpillables - info.memUsed);
        }
      }
      info.spillable := spillable;
      assert Snapshot(consumers) == cs[at := cs[at].(spillable := spillable)];
    }

    /** The accounting of an update, under both locks. */
    method Account(info: MemConsumerInfo, change: Change) returns (oldUsed: nat, newUsed: nat)
      requires Valid() && info in consumers && (change.ForceSpill? ==> info.spillable)
      modifies this`status, this`forcedSpills, info`memUsed
      ensures Valid() && oldUsed == old(info.memUsed) && newUsed == Reported(oldUsed, change)
      ensures info.memUsed == Recorded(oldUsed, change)
      ensures status.totalUsed == old(status.totalUsed) + newUsed - oldUsed
      ensures status.numConsumers == old(status.numConsumers) && status.numSpillables == old(status.numSpillables)
      ensures forcedSpills == old(forcedSpills) + if change.ForceSpill? then 1 else 0
      ensures info.spillable ==> status.numSpillables >= 1
    {
      hide Sum, Balanced, Reported, Recorded;
      ghost var cs := Snapshot(consumers);
      ghost var at :| 0 <= at < |consumers| && consumers[at] == info;
      UpdateBalanced(status, cs, forcedSpills, at, change);
      oldUsed := info.memUsed;
      newUsed := Reported(oldUsed, change);
      var diff := newUsed as int - oldUsed as int;
      assert cs[at] == Consumer(oldUsed, info.spillable) && CanUpdate(status, cs[at], change);
      info.memUsed := Recorded(oldUsed, change);
      assert status.totalUsed + diff >= 0;
      status := status.(totalUsed := status.totalUsed + diff);
      if info.spillable {
        assert status.memSpillables + diff >= 0;
        status := status.(memSpillables := status.memSpillables + diff);
      }
      forcedSpills := if change.ForceSpill? then forcedSpills + 1 else forcedSpills;
      assert Snapshot(consumers) == cs[at := cs[at].(memUsed := Recorded(cs[at].memUsed, change))];
    }

    /** Applies an update and decides what follows. A forced spill of an unspillable consumer panics
        before anything has changed. */
    method UpdateConsumer(info: MemConsumerInfo, change: Change, env: Env) returns (panics: bool, op: Operation)
      requires Valid() && info in consumers
      modifies this`status, this`forcedSpills, info`memUsed
      ensures Valid()
      ensures panics <==> change.ForceSpill? && !info.spillable
      ensures panics ==> status == old(status) && info.memUsed == old(info.memUsed) && op == Nothing
      ensures !panics ==>
        && info.memUsed == Recorded(old(info.memUsed), change)
        && status.totalUsed == old(status.totalUsed) + Reported(old(info.memUsed), change) - old(info.memUsed)
        && status.numConsumers == old(status.numConsumers) && status.numSpillables == old(status.numSpillables)
      ensures forcedSpills == old(forcedSpills) + if change.ForceSpill? && !panics then 1 else 0
      ensures change.ForceSpill? && !panics ==> op == Spill
      ensures !panics ==>
        info.memUsed ==
          match change
          case Replace(newUsed) => newUsed
          case Adjust(diff) => if old(info.memUsed) + diff >= 0 then old(info.memUsed) + diff else 0
          case ForceSpill => old(info.memUsed)
      ensures !change.ForceSpill? && (!info.spillable || old(info.memUsed) == 0) ==> op == Nothing
      ensures !change.ForceSpill? && info.spillable && old(info.memUsed) > 0 ==>
        var cs := Snapshot(consumers);
        && Sum(IsSpillable, cs) >= 1
        && (op != Nothing <==>
              && info.memUsed > old(info.memUsed) && info.memUsed > 16_777_216
              && Pressed(total, env, cs, forcedSpills, info.memUsed))
        && (op == Spill <==> op != Nothing && info.memUsed > Share(total, env, cs) / 8)
    {
      hide Sum, Decide, Balanced, Pressed, Share, Distinct;
      if change.ForceSpill? && !info.spillable {
        return true, Nothing;
      }
      var forced := change.ForceSpill?;
      var oldUsed, newUsed := Account(info, change);
      panics := false;
      ghost var now := Snapshot(consumers);
      if info.spillable {
        DecideExactly(total, status, now, forcedSpills, oldUsed, newUsed, env);
      }
      if !forced && (oldUsed == 0 || newUsed == 0 || !info.spillable) {
        return false, Nothing;
      }
      op := Decide(total, status, info.spillable, oldUsed, newUsed, forced, env);
      DecideBounds(total, status, info.spillable, oldUsed, newUsed, forced, env);
    }
  }
}
