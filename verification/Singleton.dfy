/** `AK/Singleton.h`: lazy creation of one instance under every interleaving of any number of threads. */
module Singleton {

  /** The shared pointer: null, the mark of a creation under way, or an address. */
  const NULL: nat := 0
  const PENDING: nat := 1

  /** Where a call of `get` stands between two atomic steps. */
  datatype Pc =
    | Outside
    | Started(allowCreate: bool)
    | Loaded(allowCreate: bool, obj: nat)    // after the first load
    | Won                                    // the exchange succeeded; about to call the initialiser
    | Created(obj: nat)                      // about to store the instance
    | Waiting(allowCreate: bool, obj: nat)   // at the waiting loop

  /** A call that has returned. */
  datatype Result = Result(allowCreate: bool, obj: nat)

  datatype State = State(variable: nat, threads: seq<Pc>, created: seq<nat>, results: seq<Result>, failed: bool)

  datatype Action =
    | Begin(t: nat, allowCreate: bool) | Load(t: nat) | Exchange(t: nat)
    | Initialise(t: nat, instance: nat) | Store(t: nat) | Wait(t: nat)

  /** A new instance lies at an address that is neither null nor the mark. */
  predicate Enabled(s: State, a: Action) {
    && !s.failed && a.t < |s.threads|
    && var pc := s.threads[a.t];
    match a
    case Begin(_, _) => pc.Outside?
    case Load(_) => pc.Started?
    case Exchange(_) => pc.Loaded?
    case Initialise(_, instance) => pc.Won? && instance > PENDING
    case Store(_) => pc.Created?
    case Wait(_) => pc.Waiting?
  }

  function Move(s: State, t: nat, pc: Pc): State
    requires t < |s.threads|
  {
    s.(threads := s.threads[t := pc])
  }

  function Return(s: State, t: nat, allowCreate: bool, obj: nat): State
    requires t < |s.threads|
  {
    Move(s, t, Outside).(results := s.results + [Result(allowCreate, obj)])
  }

  function After(s: State, a: Action): State
    requires Enabled(s, a)
  {
    var pc := s.threads[a.t];
    match a
    case Begin(t, allowCreate) => Move(s, t, Started(allowCreate))
    case Load(t) => Move(s, t, Loaded(pc.allowCreate, s.variable))
    case Exchange(t) =>
      if pc.obj > PENDING then Return(s, t, pc.allowCreate, pc.obj)
      else if pc.allowCreate && pc.obj == NULL then
        // A failed exchange leaves the value it found.
        if s.variable == NULL then Move(s, t, Won).(variable := PENDING)
        else Move(s, t, Waiting(true, s.variable))
      else Move(s, t, Waiting(pc.allowCreate, pc.obj))
    case Initialise(t, instance) => Move(s, t, Created(instance)).(created := s.created + [instance])
    case Store(t) => Return(s, t, true, pc.obj).(variable := pc.obj)
    case Wait(t) =>
      if pc.obj == PENDING then Move(s, t, Waiting(pc.allowCreate, s.variable))
      // The two checks after the loop.
      else if (pc.allowCreate && pc.obj == NULL) || pc.obj == PENDING then s.(failed := true)
      else Return(s, t, pc.allowCreate, pc.obj)
  }

  predicate Initial(s: State) {
    && s.variable == NULL && s.created == [] && s.results == [] && !s.failed
    && forall t :: 0 <= t < |s.threads| ==> s.threads[t].Outside?
  }

  // ---------- what every step keeps ----------

  /** The thread that creates the instance. */
  predicate Creating(pc: Pc) {
    pc.Won? || pc.Created?
  }

  /** A value that was read from the variable some time ago. */
  ghost predicate Known(s: State, obj: nat) {
    obj == NULL || (obj == PENDING && s.variable != NULL) || (obj > PENDING && obj == s.variable)
  }

  ghost predicate PcOk(s: State, pc: Pc) {
    match pc
    case Loaded(_, obj) => Known(s, obj)
    case Won => s.variable == PENDING && s.created == []
    case Created(obj) => s.variable == PENDING && s.created == [obj] && obj > PENDING
    case Waiting(allowCreate, obj) => Known(s, obj) && (allowCreate ==> obj != NULL)
    case _ => true
  }

  ghost predicate ResultOk(s: State, r: Result) {
    (r.obj == NULL && !r.allowCreate) || (r.obj > PENDING && r.obj == s.variable)
  }

  ghost predicate OneCreator(threads: seq<Pc>) {
    forall t, u :: 0 <= t < |threads| && 0 <= u < |threads| && Creating(threads[t]) && Creating(threads[u]) ==> t == u
  }

  ghost predicate Invariant(s: State) {
    && !s.failed
    && (s.variable == NULL ==> s.created == [])
    && (s.variable == PENDING ==> exists t :: 0 <= t < |s.threads| && Creating(s.threads[t]))
    && (s.variable > PENDING ==> s.created == [s.variable])
    && OneCreator(s.threads)
    && (forall t :: 0 <= t < |s.threads| ==> PcOk(s, s.threads[t]))
    && (forall i :: 0 <= i < |s.results| ==> ResultOk(s, s.results[i]))
  }

  /** The variable goes from null to the mark to the instance, and nowhere else. */
  predicate Forward(before: nat, after: nat) {
    after == before || (before == NULL && after == PENDING) || (before == PENDING && after > PENDING)
  }

  lemma {:induction false} StepKeeps(s: State, a: Action)
    requires Invariant(s) && Enabled(s, a)
    ensures Invariant(After(s, a)) && Forward(s.variable, After(s, a).variable)
    ensures s.created <= After(s, a).created && s.results <= After(s, a).results
  {
    var s' := After(s, a);
    assert PcOk(s, s.threads[a.t]);
    CreatorKept(s, a);
    forall t | 0 <= t < |s'.threads|
      ensures PcOk(s', s'.threads[t])
    {
      assert PcOk(s, s.threads[t]);
    }
    forall i | 0 <= i < |s'.results|
      ensures ResultOk(s', s'.results[i])
    {
      if i < |s.results| {
        assert ResultOk(s, s.results[i]);
      }
    }
  }

  lemma {:induction false} CreatorKept(s: State, a: Action)
    requires Invariant(s) && Enabled(s, a)
    ensures OneCreator(After(s, a).threads)
    ensures After(s, a).variable == PENDING ==> exists t :: 0 <= t < |s.threads| && Creating(After(s, a).threads[t])
  {
    var s' := After(s, a);
    assert PcOk(s, s.threads[a.t]);
    if s'.variable == PENDING {
      if s.variable == PENDING {
        var t :| 0 <= t < |s.threads| && Creating(s.threads[t]);
        assert Creating(s'.threads[t]);
      } else {
        assert Creating(s'.threads[a.t]);
      }
    }
    forall t, u | 0 <= t < |s'.threads| && 0 <= u < |s'.threads| && Creating(s'.threads[t]) && Creating(s'.threads[u])
      ensures t == u
    {
      assert PcOk(s, s.threads[t]) && PcOk(s, s.threads[u]);
    }
  }

  // ---------- every run ----------

  ghost predicate IsRun(s: State, actions: seq<Action>)
    decreases |actions|
  {
    actions == [] || (Enabled(s, actions[0]) && IsRun(After(s, actions[0]), actions[1..]))
  }

  ghost function Final(s: State, actions: seq<Action>): State
    requires IsRun(s, actions)
    decreases |actions|
  {
    if actions == [] then s else Final(After(s, actions[0]), actions[1..])
  }

  lemma {:induction false} RunKeeps(s: State, actions: seq<Action>)
    requires Invariant(s) && IsRun(s, actions)
    ensures Invariant(Final(s, actions)) && s.results <= Final(s, actions).results
    ensures s.variable > PENDING ==> Final(s, actions).variable == s.variable
    decreases |actions|
  {
    if actions != [] {
      StepKeeps(s, actions[0]);
      RunKeeps(After(s, actions[0]), actions[1..]);
    }
  }

  /** On every run both checks hold, the initialiser runs at most once, and every creating call returns the one
      instance that it made. */
  lemma {:induction false} EveryRun(s: State, actions: seq<Action>)
    requires Initial(s) && IsRun(s, actions)
    ensures var f := Final(s, actions);
      && !f.failed && |f.created| <= 1
      && (forall i :: 0 <= i < |f.results| && f.results[i].allowCreate ==>
            f.results[i].obj > PENDING && f.created == [f.results[i].obj])
      && (forall i :: 0 <= i < |f.results| && !f.results[i].allowCreate ==>
            f.results[i].obj == NULL || f.created == [f.results[i].obj])
  {
    assert Invariant(s);
    RunKeeps(s, actions);
    var f := Final(s, actions);
    forall i | 0 <= i < |f.results|
      ensures ResultOk(f, f.results[i])
    {
    }
    if f.variable == PENDING {
      var t :| 0 <= t < |f.threads| && Creating(f.threads[t]);
      assert PcOk(f, f.threads[t]);
    }
  }

  /** While somebody waits, somebody is at work on the instance or it is there: the wait can end. */
  lemma {:induction false} WaitIsAnswered(s: State, t: nat)
    requires Invariant(s) && t < |s.threads| && s.threads[t].Waiting? && s.threads[t].obj == PENDING
    ensures s.variable > PENDING || exists u :: 0 <= u < |s.threads| && Creating(s.threads[u])
  {
    assert PcOk(s, s.threads[t]);
  }

  // ---------- what a call achieves ----------

  lemma {:induction false} RunJoined(s: State, a: seq<Action>, b: seq<Action>)
    requires IsRun(s, a) && IsRun(Final(s, a), b)
    ensures IsRun(s, a + b) && Final(s, a + b) == Final(Final(s, a), b)
    decreases |a|
  {
    if a == [] {
      assert a + b == b;
    } else {
      assert (a + b)[0] == a[0] && (a + b)[1..] == a[1..] + b;
      RunJoined(After(s, a[0]), a[1..], b);
    }
  }

  lemma {:induction false} RunOfOne(s: State, a: Action)
    requires Enabled(s, a)
    ensures IsRun(s, [a]) && Final(s, [a]) == After(s, a)
  {
    assert [a][1..] == [];
  }

  lemma {:induction false} TwoSteps(s: State, a: Action, b: Action)
    requires Enabled(s, a) && Enabled(After(s, a), b)
    ensures IsRun(s, [a, b]) && Final(s, [a, b]) == After(After(s, a), b)
  {
    hide After, Enabled;
    RunOfOne(After(s, a), b);
    assert [a, b][1..] == [b];
  }

  lemma {:induction false} ThreeSteps(s: State, a: Action, b: Action, c: Action)
    requires Enabled(s, a) && Enabled(After(s, a), b) && Enabled(After(After(s, a), b), c)
    ensures IsRun(s, [a, b, c]) && Final(s, [a, b, c]) == After(After(After(s, a), b), c)
  {
    hide After, Enabled;
    TwoSteps(After(s, a), b, c);
    assert [a, b, c][1..] == [b, c];
  }

  /** Once the instance is there, a call loads and returns it. */
  lemma {:induction false} CallFindsInstance(s: State, t: nat, allowCreate: bool)
    requires Invariant(s) && s.variable > PENDING && t < |s.threads| && s.threads[t].Outside?
    ensures var actions := [Begin(t, allowCreate), Load(t), Exchange(t)];
      IsRun(s, actions) && Final(s, actions) == s.(results := s.results + [Result(allowCreate, s.variable)])
  {
    ThreeSteps(s, Begin(t, allowCreate), Load(t), Exchange(t));
    assert s.threads[t := Outside] == s.threads;
  }

  /** The first creating call creates, stores and returns an instance. */
  lemma {:induction false} FirstCallCreates(s: State, t: nat, instance: nat)
    requires Invariant(s) && s.variable == NULL && t < |s.threads| && s.threads[t].Outside? && instance > PENDING
    ensures var actions := [Begin(t, true), Load(t), Exchange(t)] + [Initialise(t, instance), Store(t)];
      && IsRun(s, actions)
      && Final(s, actions) ==
           s.(variable := instance, created := s.created + [instance], results := s.results + [Result(true, instance)])
  {
    ThreeSteps(s, Begin(t, true), Load(t), Exchange(t));
    var won := Final(s, [Begin(t, true), Load(t), Exchange(t)]);
    assert won == Move(s, t, Won).(variable := PENDING);
    TwoSteps(won, Initialise(t, instance), Store(t));
    RunJoined(s, [Begin(t, true), Load(t), Exchange(t)], [Initialise(t, instance), Store(t)]);
    assert s.threads[t := Outside] == s.threads;
  }

  /** A call that may not create finds nothing before the first one that may. */
  lemma {:induction false} PeekFindsNothing(s: State, t: nat)
    requires Invariant(s) && s.variable == NULL && t < |s.threads| && s.threads[t].Outside?
    ensures var actions := [Begin(t, false), Load(t), Exchange(t)] + [Wait(t)];
      IsRun(s, actions) && Final(s, actions) == s.(results := s.results + [Result(false, NULL)])
  {
    ThreeSteps(s, Begin(t, false), Load(t), Exchange(t));
    var waiting := Final(s, [Begin(t, false), Load(t), Exchange(t)]);
    assert waiting == Move(s, t, Waiting(false, NULL));
    RunOfOne(waiting, Wait(t));
    RunJoined(s, [Begin(t, false), Load(t), Exchange(t)], [Wait(t)]);
    assert s.threads[t := Outside] == s.threads;
  }

  /** Whether the call that a thread is in may create the instance. */
  predicate Creates(pc: Pc)
    requires !pc.Outside?
  {
    pc.Won? || pc.Created? || pc.allowCreate
  }

  /** A call that may not create and has read null returns it. */
  predicate HasReadNull(pc: Pc) {
    (pc.Loaded? || pc.Waiting?) && !pc.allowCreate && pc.obj == NULL
  }

  /** Once the instance is stored, every call returns within three steps of its own, and returns the instance unless
      it may not create one and has read null before. */
  lemma {:induction false} ReturnsInstance(s: State, t: nat) returns (actions: seq<Action>)
    requires Invariant(s) && s.variable > PENDING && t < |s.threads| && !s.threads[t].Outside?
    ensures IsRun(s, actions) && |actions| <= 3 && forall i :: 0 <= i < |actions| ==> actions[i].t == t
    ensures var pc := s.threads[t];
      Final(s, actions) == Return(s, t, Creates(pc), if HasReadNull(pc) then NULL else s.variable)
  {
    var pc := s.threads[t];
    assert PcOk(s, pc);
    match pc
    case Started(_) =>
      TwoSteps(s, Load(t), Exchange(t));
      actions := [Load(t), Exchange(t)];
    case Loaded(allowCreate, obj) =>
      if obj > PENDING {
        RunOfOne(s, Exchange(t));
        actions := [Exchange(t)];
      } else if obj == PENDING {
        ThreeSteps(s, Exchange(t), Wait(t), Wait(t));
        actions := [Exchange(t), Wait(t), Wait(t)];
      } else {
        TwoSteps(s, Exchange(t), Wait(t));
        actions := [Exchange(t), Wait(t)];
      }
    case Waiting(_, obj) =>
      if obj == PENDING {
        TwoSteps(s, Wait(t), Wait(t));
        actions := [Wait(t), Wait(t)];
      } else {
        RunOfOne(s, Wait(t));
        actions := [Wait(t)];
      }
  }

  /** While the mark is set, its creator can store the instance within two steps. */
  lemma {:induction false} CreatorStores(s: State) returns (u: nat, actions: seq<Action>)
    requires Invariant(s) && s.variable == PENDING
    ensures u < |s.threads| && Creating(s.threads[u]) && IsRun(s, actions) && |actions| <= 2
    ensures var f := Final(s, actions); f.variable > PENDING && f.threads == s.threads[u := Outside]
    ensures Final(s, actions).results == s.results + [Result(true, Final(s, actions).variable)]
  {
    u :| 0 <= u < |s.threads| && Creating(s.threads[u]);
    assert PcOk(s, s.threads[u]);
    if s.threads[u].Won? {
      TwoSteps(s, Initialise(u, PENDING + 1), Store(u));
      actions := [Initialise(u, PENDING + 1), Store(u)];
    } else {
      RunOfOne(s, Store(u));
      actions := [Store(u)];
    }
  }

  /** What the call of a thread has returned at the end of a run that it ends. */
  ghost predicate Returned(s: State, t: nat, f: State)
    requires t < |s.threads| && !s.threads[t].Outside?
  {
    && t < |f.threads| && f.threads[t].Outside? && f.results != []
    && var r := f.results[|f.results| - 1];
    && r.allowCreate == Creates(s.threads[t])
    && if r.allowCreate then r.obj == f.variable > PENDING else r.obj == NULL || r.obj == f.variable > PENDING
  }

  /** Before anybody creates, a call returns null or goes on to create, store and return the instance. */
  lemma {:induction false} ReturnsFromNull(s: State, t: nat) returns (actions: seq<Action>)
    requires Invariant(s) && s.variable == NULL && t < |s.threads| && !s.threads[t].Outside?
    ensures IsRun(s, actions) && |actions| <= 4 && Returned(s, t, Final(s, actions))
  {
    var pc := s.threads[t];
    assert PcOk(s, pc);
    var before := if pc.Started? then [Load(t), Exchange(t)] else [Exchange(t)];
    if pc.Waiting? {
      RunOfOne(s, Wait(t));
      return [Wait(t)];
    }
    if pc.Started? {
      TwoSteps(s, Load(t), Exchange(t));
    } else {
      RunOfOne(s, Exchange(t));
    }
    var m := Final(s, before);
    if Creates(pc) {
      assert m == Move(s, t, Won).(variable := PENDING);
      TwoSteps(m, Initialise(t, PENDING + 1), Store(t));
      RunJoined(s, before, [Initialise(t, PENDING + 1), Store(t)]);
      actions := before + [Initialise(t, PENDING + 1), Store(t)];
    } else {
      assert m == Move(s, t, Waiting(false, NULL));
      RunOfOne(m, Wait(t));
      RunJoined(s, before, [Wait(t)]);
      actions := before + [Wait(t)];
    }
  }

  /** From every state that meets the invariant, every call can return; a creating call then returns the instance. */
  lemma {:induction false} EveryCallCanReturn(s: State, t: nat) returns (actions: seq<Action>)
    requires Invariant(s) && t < |s.threads| && !s.threads[t].Outside?
    ensures IsRun(s, actions) && |actions| <= 5 && Returned(s, t, Final(s, actions))
  {
    hide After, Enabled, PcOk;
    if s.variable == NULL {
      actions := ReturnsFromNull(s, t);
    } else if s.variable > PENDING {
      actions := ReturnsInstance(s, t);
    } else {
      var u;
      u, actions := CreatorStores(s);
      if u != t {
        RunKeeps(s, actions);
        var rest := ReturnsInstance(Final(s, actions), t);
        RunJoined(s, actions, rest);
        actions := actions + rest;
      }
    }
  }
}
