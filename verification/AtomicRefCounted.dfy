/** `AK/AtomicRefCounted.h`: the reference counter under every interleaving of any number of threads. */
module AtomicRefCounted {

  /** The largest value of the counter's type, `unsigned int`. */
  const MAX: nat := 0xffff_ffff

  /** Where a thread stands between two atomic steps. */
  datatype Pc =
    | Idle
    | RefChecks(was: nat)          // ref: after the addition, before its two checks
    | TryLoop(expected: nat)       // try_ref: at the top of the loop
    | TryExchange(expected: nat)   // try_ref: before the compare and exchange
    | UnrefChecks(was: nat)        // unref: after the subtraction, before its check
    | Destroying                   // unref: saw zero, about to destroy

  /** A thread and the references it owns. */
  datatype Thread = Thread(pc: Pc, owned: nat)

  datatype State = State(count: nat, threads: seq<Thread>, destroyed: nat, failed: bool)

  datatype Action =
    | Ref(t: nat) | RefReturn(t: nat)
    | TryRef(t: nat) | TryTest(t: nat) | TrySwap(t: nat)
    | Unref(t: nat) | UnrefTest(t: nat) | Destroy(t: nat)
    | Hand(t: nat, to: nat)

  ghost function Owned(threads: seq<Thread>): nat {
    if threads == [] then 0 else Owned(threads[..|threads| - 1]) + threads[|threads| - 1].owned
  }

  /** The threads that saw the counter reach zero and have not destroyed the object yet. */
  function Seen(pc: Pc): nat {
    if pc.Destroying? || (pc.UnrefChecks? && pc.was == 1) then 1 else 0
  }

  ghost function Doomed(threads: seq<Thread>): nat {
    if threads == [] then 0 else Doomed(threads[..|threads| - 1]) + Seen(threads[|threads| - 1].pc)
  }

  // ---------- the steps ----------

  /** A caller of `ref` or `unref` owns a reference; each step belongs to a thread that has come that far. */
  predicate Enabled(s: State, a: Action) {
    && !s.failed && a.t < |s.threads|
    && var thread := s.threads[a.t];
    match a
    case Ref(_) => thread.pc.Idle? && thread.owned > 0
    case RefReturn(_) => thread.pc.RefChecks?
    case TryRef(_) => thread.pc.Idle?
    case TryTest(_) => thread.pc.TryLoop?
    case TrySwap(_) => thread.pc.TryExchange?
    case Unref(_) => thread.pc.Idle? && thread.owned > 0
    case UnrefTest(_) => thread.pc.UnrefChecks?
    case Destroy(_) => thread.pc.Destroying?
    case Hand(_, to) => thread.pc.Idle? && thread.owned > 0 && to < |s.threads|
  }

  function Put(s: State, t: nat, thread: Thread): State
    requires t < |s.threads|
  {
    s.(threads := s.threads[t := thread])
  }

  /** One atomic step. The counter wraps around like the machine word. */
  function After(s: State, a: Action): State
    requires Enabled(s, a)
  {
    var thread := s.threads[a.t];
    match a
    case Ref(t) =>
      Put(s, t, Thread(RefChecks(s.count), thread.owned + 1)).(count := if s.count == MAX then 0 else s.count + 1)
    case RefReturn(t) =>
      if thread.pc.was > 0 && thread.pc.was < MAX then Put(s, t, thread.(pc := Idle)) else s.(failed := true)
    case TryRef(t) => Put(s, t, thread.(pc := TryLoop(s.count)))
    case TryTest(t) =>
      if thread.pc.expected == 0 then Put(s, t, thread.(pc := Idle))
      else if thread.pc.expected == MAX then s.(failed := true)
      else Put(s, t, thread.(pc := TryExchange(thread.pc.expected)))
    case TrySwap(t) =>
      if s.count == thread.pc.expected then Put(s, t, Thread(Idle, thread.owned + 1)).(count := s.count + 1)
      else Put(s, t, thread.(pc := TryLoop(s.count)))
    case Unref(t) =>
      Put(s, t, Thread(UnrefChecks(s.count), thread.owned - 1)).(count := if s.count == 0 then MAX else s.count - 1)
    case UnrefTest(t) =>
      if thread.pc.was == 0 then s.(failed := true)
      else if thread.pc.was == 1 then Put(s, t, thread.(pc := Destroying))
      else Put(s, t, thread.(pc := Idle))
    case Destroy(t) =>
      // The destructor checks that the counter is zero.
      if s.count == 0 then Put(s, t, thread.(pc := Idle)).(destroyed := s.destroyed + 1) else s.(failed := true)
    case Hand(t, to) =>
      var s' := Put(s, t, thread.(owned := thread.owned - 1));
      Put(s', to, s'.threads[to].(owned := s'.threads[to].owned + 1))
  }

  /** The step asks for one reference more than the counter can hold. */
  predicate Overflows(s: State, a: Action)
    requires Enabled(s, a)
  {
    (a.Ref? && s.count == MAX) || (a.TryTest? && s.threads[a.t].pc.expected == MAX)
  }

  /** One thread owns the first reference. */
  predicate Initial(s: State) {
    && s.threads != [] && s.count == 1 && s.destroyed == 0 && !s.failed
    && s.threads[0] == Thread(Idle, 1)
    && forall t :: 0 < t < |s.threads| ==> s.threads[t] == Thread(Idle, 0)
  }

  // ---------- what every step keeps ----------

  ghost predicate PcOk(pc: Pc, count: nat) {
    match pc
    case RefChecks(was) => 0 < was < MAX
    case TryLoop(expected) => expected <= MAX && (expected == 0 ==> count == 0)
    case TryExchange(expected) => 0 < expected < MAX
    case UnrefChecks(was) => 0 < was && (was == 1 ==> count == 0)
    case Destroying => count == 0
    case _ => true
  }

  ghost predicate Invariant(s: State) {
    && !s.failed
    && s.count == Owned(s.threads) <= MAX
    && s.destroyed + Doomed(s.threads) == (if s.count == 0 then 1 else 0)
    && forall t :: 0 <= t < |s.threads| ==> PcOk(s.threads[t].pc, s.count)
  }

  lemma {:induction false} OwnedChanges(threads: seq<Thread>, t: nat, thread: Thread)
    requires t < |threads|
    ensures Owned(threads[t := thread]) == Owned(threads) - threads[t].owned + thread.owned
    ensures Doomed(threads[t := thread]) == Doomed(threads) - Seen(threads[t].pc) + Seen(thread.pc)
  {
    var n := |threads| - 1;
    var threads' := threads[t := thread];
    if t == n {
      assert threads'[..n] == threads[..n];
    } else {
      assert threads'[..n] == threads[..n][t := thread];
      OwnedChanges(threads[..n], t, thread);
    }
  }

  lemma {:induction false} OwnedAtLeast(threads: seq<Thread>, t: nat)
    requires t < |threads|
    ensures Owned(threads) >= threads[t].owned
    ensures Doomed(threads) >= Seen(threads[t].pc)
  {
    var n := |threads| - 1;
    if t < n {
      OwnedAtLeast(threads[..n], t);
    }
  }

  lemma {:induction false} InvariantAtFirst(s: State)
    requires Initial(s)
    ensures Invariant(s)
  {
    IdleAtFirst(s.threads);
  }

  lemma {:induction false} IdleAtFirst(threads: seq<Thread>)
    requires threads != [] && threads[0] == Thread(Idle, 1)
    requires forall t :: 0 < t < |threads| ==> threads[t] == Thread(Idle, 0)
    ensures Owned(threads) == 1 && Doomed(threads) == 0
  {
    var n := |threads| - 1;
    if n > 0 {
      IdleAtFirst(threads[..n]);
    } else {
      assert threads[..0] == [];
    }
  }

  /** Nobody who has seen zero is left waiting while references exist. */
  lemma {:induction false} NotDoomed(s: State, t: nat)
    requires Invariant(s) && s.count > 0 && t < |s.threads|
    ensures Seen(s.threads[t].pc) == 0
  {
    OwnedAtLeast(s.threads, t);
  }

  /** A step of one thread that keeps the books. */
  lemma {:induction false} Updated(s: State, t: nat, thread: Thread, count: nat, destroyed: nat)
    requires Invariant(s) && t < |s.threads| && (count == s.count || s.count > 0)
    requires count == s.count - s.threads[t].owned + thread.owned <= MAX
    requires destroyed + Seen(thread.pc) - s.destroyed - Seen(s.threads[t].pc)
      == (if count == 0 then 1 else 0) - (if s.count == 0 then 1 else 0)
    requires PcOk(thread.pc, count)
    ensures Invariant(State(count, s.threads[t := thread], destroyed, false))
  {
    var threads' := s.threads[t := thread];
    OwnedChanges(s.threads, t, thread);
    forall u | 0 <= u < |threads'|
      ensures PcOk(threads'[u].pc, count)
    {
      if u != t {
        assert PcOk(s.threads[u].pc, s.count);
        if s.count > 0 {
          NotDoomed(s, u);
        }
      }
    }
  }

  lemma {:induction false} HandKeeps(s: State, a: Action)
    requires Invariant(s) && Enabled(s, a) && a.Hand?
    ensures Invariant(After(s, a))
  {
    var first := s.threads[a.t].(owned := s.threads[a.t].owned - 1);
    var between := s.threads[a.t := first];
    OwnedChanges(s.threads, a.t, first);
    OwnedChanges(between, a.to, between[a.to].(owned := between[a.to].owned + 1));
    var s' := After(s, a);
    forall u | 0 <= u < |s'.threads|
      ensures PcOk(s'.threads[u].pc, s'.count)
    {
      assert PcOk(s.threads[u].pc, s.count);
    }
  }

  /** Every step that does not overflow the counter keeps the invariant. */
  lemma {:induction false} StepKeeps(s: State, a: Action)
    requires Invariant(s) && Enabled(s, a) && !Overflows(s, a)
    ensures Invariant(After(s, a))
  {
    var t := a.t;
    OwnedAtLeast(s.threads, t);
    assert PcOk(s.threads[t].pc, s.count);
    if s.count > 0 {
      NotDoomed(s, t);
    }
    if a.Hand? {
      HandKeeps(s, a);
    } else {
      var s' := After(s, a);
      Updated(s, t, s'.threads[t], s'.count, s'.destroyed);
    }
  }

  // ---------- every run ----------

  /** The state after a run; each action must be enabled when its turn comes. */
  ghost predicate IsRun(s: State, actions: seq<Action>)
    decreases |actions|
  {
    actions == [] || (Enabled(s, actions[0]) && IsRun(After(s, actions[0]), actions[1..]))
  }

  ghost function Final(s: State, actions: seq<Action>): State
    requires IsRun(s, actions)
    decreases |actions|
  {
    if actions == [] then s else Final(After(s, actions[0]), actions[1..])
  }

  ghost predicate NeverOverflows(s: State, actions: seq<Action>)
    requires IsRun(s, actions)
    decreases |actions|
  {
    actions == [] || (!Overflows(s, actions[0]) && NeverOverflows(After(s, actions[0]), actions[1..]))
  }

  lemma {:induction false} RunKeeps(s: State, actions: seq<Action>)
    requires Invariant(s) && IsRun(s, actions) && NeverOverflows(s, actions)
    ensures Invariant(Final(s, actions))
    decreases |actions|
  {
    if actions != [] {
      StepKeeps(s, actions[0]);
      RunKeeps(After(s, actions[0]), actions[1..]);
    }
  }

  lemma {:induction false} RunJoined(s: State, a: seq<Action>, b: seq<Action>)
    requires IsRun(s, a) && IsRun(Final(s, a), b)
    ensures IsRun(s, a + b) && Final(s, a + b) == Final(Final(s, a), b)
    decreases |a|
  {
    if a == [] {
      assert a + b == b;
    } else {
      assert (a + b)[0] == a[0] && (a + b)[1..] == a[1..] + b;
      RunJoined(After(s, a[0]), a[1..], b);
    }
  }

  lemma {:induction false} RunOfOne(s: State, a: Action)
    requires Enabled(s, a)
    ensures IsRun(s, [a]) && Final(s, [a]) == After(s, a)
  {
    assert [a][1..] == [];
  }

  /** One more step at the end of a run. */
  lemma {:induction false} Then(s: State, actions: seq<Action>, a: Action) returns (r: seq<Action>)
    requires IsRun(s, actions) && Enabled(Final(s, actions), a)
    ensures IsRun(s, r) && Final(s, r) == After(Final(s, actions), a)
  {
    RunOfOne(Final(s, actions), a);
    RunJoined(s, actions, [a]);
    r := actions + [a];
  }

  // ---------- runs that ask for too much ----------

  /** A thread whose addition wrapped the counter around and whose check will fail. */
  ghost predicate Wrapped(s: State, t: nat) {
    t < |s.threads| && s.threads[t].pc == RefChecks(MAX)
  }

  /** The overflow shows: a check has failed, or a thread is bound to fail one. */
  ghost predicate Caught(s: State) {
    s.failed || exists t: nat :: Wrapped(s, t)
  }

  /** A thread that has wrapped the counter around stays where it is until its check fails. */
  lemma {:induction false} StaysWrapped(s: State, a: Action, t: nat)
    requires Enabled(s, a) && Wrapped(s, t)
    ensures After(s, a).failed || Wrapped(After(s, a), t)
  {
  }

  lemma {:induction false} StaysCaught(s: State, actions: seq<Action>)
    requires Caught(s) && IsRun(s, actions)
    ensures Caught(Final(s, actions))
    decreases |actions|
  {
    if actions != [] {
      var t: nat :| Wrapped(s, t);
      StaysWrapped(s, actions[0], t);
      StaysCaught(After(s, actions[0]), actions[1..]);
    }
  }

  lemma {:induction false} OverflowIsCaught(s: State, a: Action)
    requires Enabled(s, a) && Overflows(s, a)
    ensures Caught(After(s, a))
  {
    assert a.Ref? ==> Wrapped(After(s, a), a.t);
  }

  /** A run never asks for more than the counter holds exactly when, at its end, no check has failed and no thread
      is bound to fail one. */
  lemma {:induction false} OverflowShows(s: State, actions: seq<Action>)
    requires Invariant(s) && IsRun(s, actions)
    ensures NeverOverflows(s, actions) <==> !Caught(Final(s, actions))
    decreases |actions|
  {
    if actions == [] {
      NotCaught(s);
    } else if Overflows(s, actions[0]) {
      OverflowIsCaught(s, actions[0]);
      StaysCaught(After(s, actions[0]), actions[1..]);
    } else {
      StepKeeps(s, actions[0]);
      OverflowShows(After(s, actions[0]), actions[1..]);
    }
  }

  lemma {:induction false} NotCaught(s: State)
    requires Invariant(s)
    ensures !Caught(s)
  {
    forall t: nat | t < |s.threads|
      ensures !Wrapped(s, t)
    {
      assert PcOk(s.threads[t].pc, s.count);
    }
  }

  // ---------- what holds on every run ----------

  /** The counter is the number of owned references, one thread has seen zero iff it is zero, and when nobody owns a
      reference and nobody is on the way exactly one has destroyed the object. */
  ghost predicate Sound(s: State) {
    && s.count == Owned(s.threads)
    && s.destroyed + Doomed(s.threads) == (if Owned(s.threads) == 0 then 1 else 0)
    && (Owned(s.threads) == 0 && (forall t :: 0 <= t < |s.threads| ==> s.threads[t].pc.Idle?) ==> s.destroyed == 1)
  }

  /** Every run ends sound, or with an overflow that shows; and it shows exactly when there was one. */
  lemma {:induction false} EveryRun(s: State, actions: seq<Action>)
    requires Initial(s) && IsRun(s, actions)
    ensures var f := Final(s, actions);
      (NeverOverflows(s, actions) <==> !Caught(f)) && (!Caught(f) ==> !f.failed && Sound(f))
  {
    InvariantAtFirst(s);
    OverflowShows(s, actions);
    if NeverOverflows(s, actions) {
      RunKeeps(s, actions);
      var f := Final(s, actions);
      if forall t :: 0 <= t < |f.threads| ==> f.threads[t].pc.Idle? {
        NobodyDoomed(f.threads);
      }
    }
  }

  lemma {:induction false} NobodyDoomed(threads: seq<Thread>)
    requires forall t :: 0 <= t < |threads| ==> threads[t].pc.Idle?
    ensures Doomed(threads) == 0
  {
    if threads != [] {
      NobodyDoomed(threads[..|threads| - 1]);
    }
  }

  /** Once the counter has reached zero it stays there: no `try_ref` succeeds and nobody gains a reference. */
  lemma {:induction false} ZeroIsFinal(s: State, actions: seq<Action>)
    requires Invariant(s) && s.count == 0 && IsRun(s, actions)
    ensures Final(s, actions).count == 0 && Owned(Final(s, actions).threads) == 0
    decreases |actions|
  {
    if actions != [] {
      var a := actions[0];
      OwnedAtLeast(s.threads, a.t);
      assert PcOk(s.threads[a.t].pc, s.count);
      if Overflows(s, a) {
        assert After(s, a) == s.(failed := true);
        assert actions[1..] == [];
      } else {
        StepKeeps(s, a);
        ZeroIsFinal(After(s, a), actions[1..]);
      }
    }
  }

  // ---------- what a call achieves ----------

  /** A run of one thread's own steps. */
  ghost predicate OwnRun(s: State, actions: seq<Action>, t: nat) {
    IsRun(s, actions) && forall i :: 0 <= i < |actions| ==> actions[i].t == t
  }

  lemma {:induction false} TwoSteps(s: State, a: Action, b: Action)
    requires Enabled(s, a) && Enabled(After(s, a), b)
    ensures IsRun(s, [a, b]) && Final(s, [a, b]) == After(After(s, a), b)
  {
    hide After, Enabled;
    RunOfOne(After(s, a), b);
    assert [a, b][1..] == [b];
  }

  lemma {:induction false} ThreeSteps(s: State, a: Action, b: Action, c: Action)
    requires Enabled(s, a) && Enabled(After(s, a), b) && Enabled(After(After(s, a), b), c)
    ensures IsRun(s, [a, b, c]) && Final(s, [a, b, c]) == After(After(After(s, a), b), c)
  {
    hide After, Enabled;
    TwoSteps(After(s, a), b, c);
    assert [a, b, c][1..] == [b, c];
  }

  /** The state in which only one thread and the counter are different. */
  function Changed(s: State, t: nat, owned: nat, count: nat): State
    requires t < |s.threads|
  {
    s.(count := count, threads := s.threads[t := Thread(Idle, owned)])
  }

  /** `ref` takes a reference. */
  lemma {:induction false} RefTakes(s: State, t: nat)
    requires Invariant(s) && t < |s.threads| && s.threads[t].pc.Idle? && s.threads[t].owned > 0 && s.count < MAX
    ensures IsRun(s, [Ref(t), RefReturn(t)])
    ensures Final(s, [Ref(t), RefReturn(t)]) == Changed(s, t, s.threads[t].owned + 1, s.count + 1)
  {
    OwnedAtLeast(s.threads, t);
    TwoSteps(s, Ref(t), RefReturn(t));
  }

  /** `try_ref` on a living object takes a reference. */
  lemma {:induction false} TryRefTakes(s: State, t: nat)
    requires Invariant(s) && t < |s.threads| && s.threads[t].pc.Idle? && 0 < s.count < MAX
    ensures IsRun(s, [TryRef(t), TryTest(t), TrySwap(t)])
    ensures Final(s, [TryRef(t), TryTest(t), TrySwap(t)]) == Changed(s, t, s.threads[t].owned + 1, s.count + 1)
  {
    ThreeSteps(s, TryRef(t), TryTest(t), TrySwap(t));
  }

  /** `try_ref` on a dead object takes none. */
  lemma {:induction false} TryRefRefuses(s: State, t: nat)
    requires Invariant(s) && t < |s.threads| && s.threads[t].pc.Idle? && s.count == 0
    ensures IsRun(s, [TryRef(t), TryTest(t)]) && Final(s, [TryRef(t), TryTest(t)]) == s
  {
    TwoSteps(s, TryRef(t), TryTest(t));
    assert s.threads[t := s.threads[t]] == s.threads;
  }

  /** `unref` gives a reference back and, with the last one, destroys. */
  lemma {:induction false} UnrefGives(s: State, t: nat)
    requires Invariant(s) && t < |s.threads| && s.threads[t].pc.Idle? && s.threads[t].owned > 0
    ensures s.count > 1 ==>
      && IsRun(s, [Unref(t), UnrefTest(t)])
      && Final(s, [Unref(t), UnrefTest(t)]) == Changed(s, t, s.threads[t].owned - 1, s.count - 1)
    ensures s.count == 1 ==>
      && IsRun(s, [Unref(t), UnrefTest(t), Destroy(t)])
      && Final(s, [Unref(t), UnrefTest(t), Destroy(t)]) == Changed(s, t, 0, 0).(destroyed := s.destroyed + 1)
  {
    OwnedAtLeast(s.threads, t);
    if s.count > 1 {
      TwoSteps(s, Unref(t), UnrefTest(t));
    } else {
      ThreeSteps(s, Unref(t), UnrefTest(t), Destroy(t));
    }
  }

  /** On every run, a `try_ref` is refused only when the counter is zero. */
  lemma {:induction false} RefusedAtZero(s: State, actions: seq<Action>, t: nat)
    requires Initial(s) && IsRun(s, actions) && NeverOverflows(s, actions) && Enabled(Final(s, actions), TryTest(t))
    ensures After(Final(s, actions), TryTest(t)).threads[t].pc.Idle? <==>
      Final(s, actions).threads[t].pc.expected == 0
    ensures After(Final(s, actions), TryTest(t)).threads[t].pc.Idle? ==>
      Final(s, actions).count == 0 && Owned(Final(s, actions).threads) == 0
  {
    InvariantAtFirst(s);
    RunKeeps(s, actions);
    assert PcOk(Final(s, actions).threads[t].pc, Final(s, actions).count);
  }

  /** What a call that is under way still has to get: a `try_ref` a reference, unless the object is dead. */
  function StillGets(pc: Pc, count: nat): nat {
    if (pc.TryLoop? || pc.TryExchange?) && count > 0 then 1 else 0
  }

  /** Left alone, every call returns within four steps, and with what it should; only a `try_ref` that has read the
      largest count fails its check. */
  lemma {:induction false} FinishesAlone(s: State, t: nat) returns (actions: seq<Action>)
    requires Invariant(s) && t < |s.threads| && s.count < MAX && s.threads[t].pc != TryLoop(MAX)
    ensures OwnRun(s, actions, t) && |actions| <= 4
    ensures var more := StillGets(s.threads[t].pc, s.count);
      Final(s, actions) ==
        Changed(s, t, s.threads[t].owned + more, s.count + more).(destroyed := s.destroyed + Seen(s.threads[t].pc))
  {
    var thread := s.threads[t];
    assert PcOk(thread.pc, s.count);
    match thread.pc
    case Idle =>
      actions := [];
      assert s.threads[t := thread] == s.threads;
    case RefChecks(_) =>
      RunOfOne(s, RefReturn(t));
      actions := [RefReturn(t)];
    case Destroying =>
      RunOfOne(s, Destroy(t));
      actions := [Destroy(t)];
    case UnrefChecks(was) =>
      if was == 1 {
        TwoSteps(s, UnrefTest(t), Destroy(t));
        actions := [UnrefTest(t), Destroy(t)];
      } else {
        RunOfOne(s, UnrefTest(t));
        actions := [UnrefTest(t)];
      }
    case TryExchange(_) =>
      actions := ExchangesAlone(s, t);
    case TryLoop(expected) =>
      RunOfOne(s, TryTest(t));
      if expected == 0 {
        actions := [TryTest(t)];
      } else {
        StepKeeps(s, TryTest(t));
        var rest := ExchangesAlone(After(s, TryTest(t)), t);
        RunJoined(s, [TryTest(t)], rest);
        actions := [TryTest(t)] + rest;
      }
  }

  lemma {:induction false} ExchangesAlone(s: State, t: nat) returns (actions: seq<Action>)
    requires Invariant(s) && t < |s.threads| && s.count < MAX && s.threads[t].pc.TryExchange?
    ensures OwnRun(s, actions, t) && |actions| <= 3
    ensures var more := if s.count > 0 then 1 else 0;
      Final(s, actions) == Changed(s, t, s.threads[t].owned + more, s.count + more)
  {
    assert PcOk(s.threads[t].pc, s.count);
    if s.count == s.threads[t].pc.expected {
      RunOfOne(s, TrySwap(t));
      actions := [TrySwap(t)];
    } else if s.count == 0 {
      TwoSteps(s, TrySwap(t), TryTest(t));
      actions := [TrySwap(t), TryTest(t)];
    } else {
      ThreeSteps(s, TrySwap(t), TryTest(t), TrySwap(t));
      actions := [TrySwap(t), TryTest(t), TrySwap(t)];
    }
  }

  /** The state before step `i`. */
  ghost function StateAt(s: State, actions: seq<Action>, i: nat): State
    requires IsRun(s, actions) && i <= |actions|
    decreases |actions|
  {
    if i == 0 then s else StateAt(After(s, actions[0]), actions[1..], i - 1)
  }

  /** Another thread changed the counter in step `i`. */
  ghost predicate OtherChanges(s: State, actions: seq<Action>, t: nat, i: nat)
    requires IsRun(s, actions)
  {
    i < |actions| && actions[i].t != t && StateAt(s, actions, i + 1).count != StateAt(s, actions, i).count
  }

  /** A thread has read the counter and only tests what it read. If the counter is another in the end, somebody else
      changed it: an exchange never fails for any other reason. */
  lemma {:induction false} ExchangeFailsForAReason(s: State, actions: seq<Action>, t: nat)
    requires IsRun(s, actions) && t < |s.threads| && s.threads[t].pc == TryLoop(s.count)
    requires forall i :: 0 <= i < |actions| && actions[i].t == t ==> actions[i].TryTest?
    requires Enabled(Final(s, actions), TrySwap(t)) && Final(s, actions).threads[t].pc == TryExchange(s.count)
    ensures After(Final(s, actions), TrySwap(t)).threads[t].pc.Idle? || exists i: nat :: OtherChanges(s, actions, t, i)
  {
    if Final(s, actions).count != s.count {
      SomebodyChanged(s, actions, t);
    }
  }

  lemma {:induction false} SomebodyChanged(s: State, actions: seq<Action>, t: nat)
    requires IsRun(s, actions) && Final(s, actions).count != s.count
    requires forall i :: 0 <= i < |actions| && actions[i].t == t ==> actions[i].TryTest?
    ensures exists i: nat :: OtherChanges(s, actions, t, i)
    decreases |actions|
  {
    var s', rest := After(s, actions[0]), actions[1..];
    if s'.count != s.count {
      assert StateAt(s, actions, 1) == StateAt(s', rest, 0);
      assert OtherChanges(s, actions, t, 0);
    } else {
      SomebodyChanged(s', rest, t);
      var i: nat :| OtherChanges(s', rest, t, i);
      assert OtherChanges(s, actions, t, i + 1);
    }
  }

  // ---------- what an overflow can do before it is caught ----------

  function Trio(count: nat, x: Thread, y: Thread, z: Thread, destroyed: nat): State {
    State(count, [x, y, z], destroyed, false)
  }

  /** The first of three threads holds `n` references and nobody else holds any. */
  function Hoard(n: nat): State {
    Trio(n, Thread(Idle, n), Thread(Idle, 0), Thread(Idle, 0), 0)
  }

  lemma {:induction false} HoardStep(n: nat)
    requires 1 <= n < MAX
    ensures Enabled(Hoard(n), Ref(0)) && Enabled(After(Hoard(n), Ref(0)), RefReturn(0))
    ensures After(After(Hoard(n), Ref(0)), RefReturn(0)) == Hoard(n + 1)
  {
    assert After(Hoard(n), Ref(0)) == Trio(n + 1, Thread(RefChecks(n), n + 1), Thread(Idle, 0), Thread(Idle, 0), 0);
  }

  /** It can take reference after reference. */
  lemma {:induction false} Hoarding(n: nat) returns (actions: seq<Action>)
    requires 1 <= n <= MAX
    ensures IsRun(Hoard(1), actions) && Final(Hoard(1), actions) == Hoard(n)
    decreases n
  {
    actions := [];
    if n > 1 {
      actions := Hoarding(n - 1);
      HoardStep(n - 1);
      actions := Then(Hoard(1), actions, Ref(0));
      actions := Then(Hoard(1), actions, RefReturn(0));
    }
  }

  /** The last of three threads holds one reference of `MAX`, the second another. */
  lemma {:induction false} HandedOut()
    ensures var s := Hoard(MAX); Enabled(s, Hand(0, 1)) && Enabled(After(s, Hand(0, 1)), Hand(0, 2))
    ensures After(After(Hoard(MAX), Hand(0, 1)), Hand(0, 2)) == Trio(MAX, Thread(Idle, MAX - 2), Thread(Idle, 1), Thread(Idle, 1), 0)
  {
    assert After(Hoard(MAX), Hand(0, 1)) == Trio(MAX, Thread(Idle, MAX - 1), Thread(Idle, 1), Thread(Idle, 0), 0);
  }

  lemma {:induction false} WrapsTwice(x: Thread, y: Thread, z: Thread)
    requires x == Thread(Idle, MAX - 2) && y == z == Thread(Idle, 1)
    ensures var s := Trio(MAX, x, y, z, 0); Enabled(s, Ref(0)) && Enabled(After(s, Ref(0)), Ref(1))
    ensures After(After(Trio(MAX, x, y, z, 0), Ref(0)), Ref(1))
      == Trio(1, Thread(RefChecks(MAX), MAX - 1), Thread(RefChecks(0), 2), z, 0)
  {
    assert After(Trio(MAX, x, y, z, 0), Ref(0)) == Trio(0, Thread(RefChecks(MAX), MAX - 1), y, z, 0);
  }

  lemma {:induction false} Destroys(x: Thread, y: Thread)
    ensures var s := Trio(1, x, y, Thread(Idle, 1), 0);
      Enabled(s, Unref(2)) && Enabled(After(s, Unref(2)), UnrefTest(2)) && Enabled(After(After(s, Unref(2)), UnrefTest(2)), Destroy(2))
    ensures After(After(After(Trio(1, x, y, Thread(Idle, 1), 0), Unref(2)), UnrefTest(2)), Destroy(2))
      == Trio(0, x, y, Thread(Idle, 0), 1)
  {
    var s := Trio(1, x, y, Thread(Idle, 1), 0);
    assert After(s, Unref(2)) == Trio(0, x, y, Thread(UnrefChecks(1), 0), 0);
    assert After(After(s, Unref(2)), UnrefTest(2)) == Trio(0, x, y, Thread(Destroying, 0), 0);
  }

  /** Two additions beyond the largest count bring the counter back to one. An `unref` that comes before the failing
      checks then destroys an object to which more references exist than the counter can hold. */
  lemma {:induction false} DestroyedWhileOwned() returns (s: State, actions: seq<Action>)
    ensures Initial(s) && IsRun(s, actions)
    ensures var f := Final(s, actions); !f.failed && f.destroyed == 1 && Owned(f.threads) == MAX + 1
  {
    hide After, Enabled, IsRun, Final, Owned;
    s := Hoard(1);
    actions := Hoarding(MAX);
    HandedOut();
    actions := Then(s, actions, Hand(0, 1));
    actions := Then(s, actions, Hand(0, 2));
    WrapsTwice(Thread(Idle, MAX - 2), Thread(Idle, 1), Thread(Idle, 1));
    actions := Then(s, actions, Ref(0));
    actions := Then(s, actions, Ref(1));
    var x, y := Thread(RefChecks(MAX), MAX - 1), Thread(RefChecks(0), 2);
    Destroys(x, y);
    actions := Then(s, actions, Unref(2));
    actions := Then(s, actions, UnrefTest(2));
    actions := Then(s, actions, Destroy(2));
    OwnedByThree(x, y, Thread(Idle, 0));
  }

  lemma {:induction false} OwnedByThree(x: Thread, y: Thread, z: Thread)
    ensures Owned([x, y, z]) == x.owned + y.owned + z.owned
  {
    OwnedNext([], x);
    assert [] + [x] == [x];
    OwnedNext([x], y);
    assert [x] + [y] == [x, y];
    OwnedNext([x, y], z);
    assert [x, y] + [z] == [x, y, z];
  }

  lemma {:induction false} OwnedNext(threads: seq<Thread>, x: Thread)
    ensures Owned(threads + [x]) == Owned(threads) + x.owned
  {
    assert (threads + [x])[..|threads|] == threads;
  }
}
