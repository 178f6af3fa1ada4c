/** The single `Instance` of a process: one atomic pointer, changed by a compare-and-exchange in
    the constructor and a store in the destructor, and loaded twice by `current`.

    Any number of threads run constructors, destructors and `current` at the same time.  A step is
    one atomic access of one thread, or a thread's start or end of a call, so a run of steps is an
    interleaving.  The initialisation that follows a won exchange is assumed not to throw. */
module InstanceProtocol {
  import opened Wrappers

  type Thread = nat

  /** The identity of the storage of an `Instance`. */
  type Object = nat

  /** The function-local static object of `current`. */
  const STATIC: Object := 0

  datatype Pointer = Null | Live(o: Object) | Sentinel

  datatype Creation = OpenExisting | IfNeeded

  /** The guard the compiler puts around the initialisation of the static object. */
  datatype Guard = Untouched | Running(t: Thread) | Done

  /** What a thread does next. */
  datatype Phase =
    | Idle
    | Exchanging(o: Object)      // in a constructor, before the compare-and-exchange
    | Initialising(o: Object)    // in a constructor that won it
    | Storing(o: Object)         // in a destructor, before the store
    | Resetting(o: Object)       // in a destructor, behind it
    | FirstLoad(creation: Creation)
    | NeedsStatic                // the first load saw null
    | SecondLoad

  datatype Status = Unused | Constructing | Alive | Dying

  datatype Event =
    | Won(o: Object)
    | Duplicate(o: Object)
    | Returned(o: Object)
    | NotCreated
    | WasDestroyed
    | NullDereference

  datatype State = State(pointer: Pointer, guard: Guard, phases: map<Thread, Phase>,
                         statuses: map<Object, Status>, log: seq<Event>)

  const INITIAL := State(Null, Untouched, map[], map[], [])

  function PhaseOf(s: State, t: Thread): Phase {
    if t in s.phases then s.phases[t] else Idle
  }

  function StatusOf(s: State, o: Object): Status {
    if o in s.statuses then s.statuses[o] else Unused
  }

  datatype Action =
    | BeginConstruct(t: Thread, o: Object)
    | BeginDestroy(t: Thread, o: Object)
    | BeginCurrent(t: Thread, creation: Creation)
    | Proceed(t: Thread)

  function At(s: State, t: Thread, p: Phase): State {
    s.(phases := s.phases[t := p])
  }

  function Mark(s: State, o: Object, status: Status): State {
    s.(statuses := s.statuses[o := status])
  }

  function Log(s: State, e: Event): State {
    s.(log := s.log + [e])
  }

  // ----- the steps

  /** The state after an action, if it can happen.  An object under construction or alive is not
      constructed again, and only a live one is destroyed, by one thread. */
  function Next(s: State, a: Action): Option<State> {
    match a
    case BeginConstruct(t, o) =>
      if PhaseOf(s, t) == Idle && o != STATIC && StatusOf(s, o) == Unused then
        Some(Mark(At(s, t, Exchanging(o)), o, Constructing))
      else None
    case BeginDestroy(t, o) =>
      if PhaseOf(s, t) == Idle && StatusOf(s, o) == Alive then
        Some(Mark(At(s, t, Storing(o)), o, Dying))
      else None
    case BeginCurrent(t, creation) =>
      if PhaseOf(s, t) == Idle then Some(At(s, t, FirstLoad(creation))) else None
    case Proceed(t) =>
      match PhaseOf(s, t)
      case Idle => None
      case Exchanging(o) => Some(Exchange(s, t, o))
      case Initialising(o) => Some(Finish(s, t, o))
      case Storing(o) => Some(Store(s, t, o))
      case Resetting(o) => Some(Mark(At(s, t, Idle), o, Unused))
      case FirstLoad(creation) => Some(Load(s, t, creation))
      case NeedsStatic => EnterStatic(s, t)
      case SecondLoad => Some(Deref(s, t))
  }

  /** The compare-and-exchange: the first to find null installs its object, all others throw.  A
      throw in the static object's constructor leaves `current` and lets others try again. */
  function Exchange(s: State, t: Thread, o: Object): State {
    if s.pointer == Null then
      Log(At(s, t, Initialising(o)), Won(o)).(pointer := Live(o))
    else
      var failed := Log(Mark(At(s, t, Idle), o, Unused), Duplicate(o));
      if o == STATIC then failed.(guard := Untouched) else failed
  }

  function Finish(s: State, t: Thread, o: Object): State {
    if o == STATIC then Mark(At(s, t, SecondLoad), o, Alive).(guard := Done)
    else Mark(At(s, t, Idle), o, Alive)
  }

  function Store(s: State, t: Thread, o: Object): State {
    At(s, t, Resetting(o)).(pointer := Sentinel)
  }

  function Load(s: State, t: Thread, creation: Creation): State {
    if s.pointer != Null then At(s, t, SecondLoad)
    else if creation == IfNeeded then At(s, t, NeedsStatic)
    else Log(At(s, t, Idle), NotCreated)
  }

  /** A thread initialises the static object, waits while another one does, or finds it done. */
  function EnterStatic(s: State, t: Thread): Option<State> {
    match s.guard
    case Untouched => Some(Mark(At(s, t, Exchanging(STATIC)), STATIC, Constructing).(guard := Running(t)))
    case Running(_) => None
    case Done => Some(At(s, t, SecondLoad))
  }

  function Deref(s: State, t: Thread): State {
    match s.pointer
    case Sentinel => Log(At(s, t, Idle), WasDestroyed)
    case Live(o) => Log(At(s, t, Idle), Returned(o))
    case Null => Log(At(s, t, Idle), NullDereference)
  }

  /** `states[i + 1]` comes from `states[i]` by `actions[i]`. */
  ghost predicate IsPath(states: seq<State>, actions: seq<Action>) {
    |states| == |actions| + 1 && forall i :: 0 <= i < |actions| ==> StepAt(states, actions, i)
  }

  ghost predicate IsRun(states: seq<State>, actions: seq<Action>) {
    IsPath(states, actions) && states[0] == INITIAL
  }

  ghost predicate StepAt(states: seq<State>, actions: seq<Action>, i: int)
    requires 0 <= i < |actions| < |states|
  {
    Next(states[i], actions[i]) == Some(states[i + 1])
  }

  /** The path `b` after the path `a`. */
  lemma PathConcat(a: seq<State>, x: seq<Action>, b: seq<State>, y: seq<Action>) returns (states: seq<State>)
    requires IsPath(a, x) && IsPath(b, y) && a[|x|] == b[0]
    ensures IsPath(states, x + y) && states[0] == a[0]
    ensures forall i :: 0 <= i < |b| ==> states[|x| + i] == b[i]
  {
    var actions := x + y;
    states := a + b[1..];
    forall i | 0 <= i < |actions| ensures StepAt(states, actions, i) {
      if i < |x| {
        assert StepAt(a, x, i);
      } else {
        assert StepAt(b, y, i - |x|);
      }
    }
  }

  // ----- the invariant

  /** What holds of one thread's phase. */
  ghost predicate PhaseInv(s: State, t: Thread) {
    match PhaseOf(s, t)
    case Exchanging(o) =>
      StatusOf(s, o) == Constructing && s.pointer != Live(o) && (o == STATIC <==> s.guard == Running(t))
    case Initialising(o) =>
      StatusOf(s, o) == Constructing && s.pointer == Live(o) && (o == STATIC <==> s.guard == Running(t))
    case Storing(o) => StatusOf(s, o) == Dying && s.pointer == Live(o) && s.guard != Running(t)
    case Resetting(o) => StatusOf(s, o) == Dying && s.pointer == Sentinel && s.guard != Running(t)
    case SecondLoad => s.pointer != Null && s.guard != Running(t)
    case _ => s.guard != Running(t)
  }

  /** The object a thread constructs or destroys. */
  function ObjectOf(p: Phase): Option<Object> {
    match p
    case Exchanging(o) => Some(o)
    case Initialising(o) => Some(o)
    case Storing(o) => Some(o)
    case Resetting(o) => Some(o)
    case _ => None
  }

  /** No two threads construct or destroy the same object. */
  ghost predicate Exclusive(s: State) {
    forall t: Thread, u: Thread {:trigger PhaseOf(s, t), PhaseOf(s, u)} ::
      ObjectOf(PhaseOf(s, t)).Some? && ObjectOf(PhaseOf(s, t)) == ObjectOf(PhaseOf(s, u)) ==> t == u
  }

  /** The constructors that won, in order. */
  function Winners(log: seq<Event>): seq<Object> {
    if log == [] then []
    else Winners(log[..|log| - 1]) + if log[|log| - 1].Won? then [log[|log| - 1].o] else []
  }

  /** The guard follows the static object. */
  ghost predicate GuardInv(s: State) {
    && (s.guard == Done ==> s.pointer != Null)
    && (StatusOf(s, STATIC) in {Alive, Dying} ==> s.guard == Done)
    && (s.pointer == Live(STATIC) ==> s.guard != Untouched)
  }

  /** A finished object is the one installed, and one being destroyed is the one that won. */
  ghost predicate ObjectInv(s: State, o: Object) {
    && (StatusOf(s, o) == Alive ==> s.pointer == Live(o))
    && (StatusOf(s, o) == Dying ==> Winners(s.log) == [o])
  }

  ghost predicate ObjectsInv(s: State) {
    forall o :: ObjectInv(s, o)
  }

  /** The pointer follows the one constructor that won. */
  ghost predicate PointerInv(s: State) {
    && (s.pointer.Live? ==> StatusOf(s, s.pointer.o) != Unused)
    && (match s.pointer
        case Null => Winners(s.log) == []
        case Live(o) => Winners(s.log) == [o]
        case Sentinel => |Winners(s.log)| == 1)
    && NullDereference !in s.log
  }

  ghost predicate PhasesInv(s: State) {
    forall t :: PhaseInv(s, t)
  }

  ghost predicate Inv(s: State) {
    PhasesInv(s) && Exclusive(s) && ObjectsInv(s) && GuardInv(s) && PointerInv(s)
  }

  lemma WinnersLog(log: seq<Event>, e: Event)
    ensures Winners(log + [e]) == Winners(log) + if e.Won? then [e.o] else []
  {
    assert (log + [e])[..|log|] == log;
  }

  /** To show the invariant after a step of `t`: every thread and object is looked at with what
      held of it, and of `t`, before. */
  lemma InvFrom(s: State, t: Thread, s': State)
    requires Inv(s) && GuardInv(s') && PointerInv(s')
    requires forall u :: PhaseInv(s, u) && PhaseInv(s, t) && Apart(s, t, u) ==> PhaseInv(s', u)
    requires forall u :: u != t ==> PhaseOf(s', u) == PhaseOf(s, u)
    requires ObjectOf(PhaseOf(s', t)).Some? ==>
      forall u :: u != t && PhaseInv(s, u) && Apart(s, t, u) ==> ObjectOf(PhaseOf(s, u)) != ObjectOf(PhaseOf(s', t))
    requires forall o :: ObjectInv(s, o) && PhaseInv(s, t) ==> ObjectInv(s', o)
    ensures Inv(s')
  {
    forall u ensures PhaseInv(s', u) && Apart(s, t, u) {
      assert PhaseInv(s, u) && PhaseInv(s, t);
      assert Apart(s, t, u);
    }
    forall o ensures ObjectInv(s', o) {
      assert ObjectInv(s, o);
    }
  }

  ghost predicate Apart(s: State, t: Thread, u: Thread) {
    u != t && ObjectOf(PhaseOf(s, t)).Some? ==> ObjectOf(PhaseOf(s, u)) != ObjectOf(PhaseOf(s, t))
  }

  lemma BeginConstructKeeps(s: State, t: Thread, o: Object)
    requires Inv(s) && Next(s, BeginConstruct(t, o)).Some?
    ensures Inv(Next(s, BeginConstruct(t, o)).value)
  {
    assert PhaseInv(s, t);
    InvFrom(s, t, Next(s, BeginConstruct(t, o)).value);
  }

  lemma BeginDestroyKeeps(s: State, t: Thread, o: Object)
    requires Inv(s) && Next(s, BeginDestroy(t, o)).Some?
    ensures Inv(Next(s, BeginDestroy(t, o)).value)
  {
    assert PhaseInv(s, t);
    assert ObjectInv(s, o);
    InvFrom(s, t, Next(s, BeginDestroy(t, o)).value);
  }

  /** A thread that works on no object moves on, in or towards `current`. */
  lemma MoveKeeps(s: State, t: Thread, p: Phase)
    requires Inv(s) && s.guard != Running(t)
    requires p.Idle? || p.FirstLoad? || p.NeedsStatic? || (p.SecondLoad? && s.pointer != Null)
    ensures Inv(At(s, t, p))
  {
    assert PhaseInv(s, t);
    InvFrom(s, t, At(s, t, p));
  }

  lemma IdleHoldsNoGuard(s: State, t: Thread)
    requires Inv(s) && PhaseOf(s, t) == Idle
    ensures s.guard != Running(t)
  {
    assert PhaseInv(s, t);
  }

  lemma LogKeeps(s: State, t: Thread, e: Event)
    requires Inv(s) && !e.Won? && !e.NullDereference?
    ensures Inv(Log(s, e))
  {
    WinnersLog(s.log, e);
    InvFrom(s, t, Log(s, e));
  }

  lemma ExchangeWins(s: State, t: Thread, o: Object)
    requires Inv(s) && PhaseOf(s, t) == Exchanging(o) && s.pointer == Null
    ensures Inv(Exchange(s, t, o))
  {
    assert PhaseInv(s, t);
    WinnersLog(s.log, Won(o));
    InvFrom(s, t, Exchange(s, t, o));
  }

  lemma ExchangeFails(s: State, t: Thread, o: Object)
    requires Inv(s) && PhaseOf(s, t) == Exchanging(o) && s.pointer != Null
    ensures Inv(Exchange(s, t, o))
  {
    assert PhaseInv(s, t);
    WinnersLog(s.log, Duplicate(o));
    InvFrom(s, t, Exchange(s, t, o));
  }

  lemma FinishKeeps(s: State, t: Thread, o: Object)
    requires Inv(s) && PhaseOf(s, t) == Initialising(o)
    ensures Inv(Finish(s, t, o))
  {
    assert PhaseInv(s, t);
    InvFrom(s, t, Finish(s, t, o));
  }

  lemma StoreKeeps(s: State, t: Thread, o: Object)
    requires Inv(s) && PhaseOf(s, t) == Storing(o)
    ensures Inv(Store(s, t, o))
  {
    assert PhaseInv(s, t);
    assert ObjectInv(s, o);
    InvFrom(s, t, Store(s, t, o));
  }

  lemma ResetKeeps(s: State, t: Thread, o: Object)
    requires Inv(s) && PhaseOf(s, t) == Resetting(o)
    ensures Inv(Mark(At(s, t, Idle), o, Unused))
  {
    assert PhaseInv(s, t);
    InvFrom(s, t, Mark(At(s, t, Idle), o, Unused));
  }

  lemma LoadKeeps(s: State, t: Thread, creation: Creation)
    requires Inv(s) && PhaseOf(s, t) == FirstLoad(creation)
    ensures Inv(Load(s, t, creation))
  {
    assert PhaseInv(s, t);
    if s.pointer != Null {
      MoveKeeps(s, t, SecondLoad);
    } else if creation == IfNeeded {
      MoveKeeps(s, t, NeedsStatic);
    } else {
      MoveKeeps(s, t, Idle);
      LogKeeps(At(s, t, Idle), t, NotCreated);
    }
  }

  lemma EnterStaticKeeps(s: State, t: Thread)
    requires Inv(s) && PhaseOf(s, t) == NeedsStatic && EnterStatic(s, t).Some?
    ensures Inv(EnterStatic(s, t).value)
  {
    assert PhaseInv(s, t);
    InvFrom(s, t, EnterStatic(s, t).value);
  }

  lemma DerefKeeps(s: State, t: Thread)
    requires Inv(s) && PhaseOf(s, t) == SecondLoad
    ensures Inv(Deref(s, t))
  {
    assert PhaseInv(s, t);
    MoveKeeps(s, t, Idle);
    LogKeeps(At(s, t, Idle), t, if s.pointer.Live? then Returned(s.pointer.o) else WasDestroyed);
  }

  /** Every step of every thread keeps the invariant. */
  lemma StepKeepsInv(s: State, a: Action)
    requires Inv(s) && Next(s, a).Some?
    ensures Inv(Next(s, a).value)
  {
    match a
    case BeginConstruct(t, o) => BeginConstructKeeps(s, t, o);
    case BeginDestroy(t, o) => BeginDestroyKeeps(s, t, o);
    case BeginCurrent(t, creation) => IdleHoldsNoGuard(s, t); MoveKeeps(s, t, FirstLoad(creation));
    case Proceed(t) =>
      match PhaseOf(s, t)
      case Exchanging(o) => if s.pointer == Null { ExchangeWins(s, t, o); } else { ExchangeFails(s, t, o); }
      case Initialising(o) => FinishKeeps(s, t, o);
      case Storing(o) => StoreKeeps(s, t, o);
      case Resetting(o) => ResetKeeps(s, t, o);
      case FirstLoad(creation) => LoadKeeps(s, t, creation);
      case NeedsStatic => EnterStaticKeeps(s, t);
      case SecondLoad => DerefKeeps(s, t);
  }

  // ----- safety over whole runs

  lemma InitialInv()
    ensures Inv(INITIAL)
  {
    forall t ensures PhaseInv(INITIAL, t) {}
    forall o ensures ObjectInv(INITIAL, o) {}
  }

  lemma {:induction false} RunInv(states: seq<State>, actions: seq<Action>, i: nat)
    requires IsRun(states, actions) && i < |states|
    ensures Inv(states[i])
  {
    if i == 0 {
      InitialInv();
    } else {
      RunInv(states, actions, i - 1);
      assert StepAt(states, actions, i - 1);
      StepKeepsInv(states[i - 1], actions[i - 1]);
    }
  }

  lemma WinnersOfLive(s: State)
    requires Inv(s)
    ensures |Winners(s.log)| <= 1
    ensures forall o: Object :: StatusOf(s, o) in {Alive, Dying} ==> Winners(s.log) == [o]
  {
    forall o: Object | StatusOf(s, o) in {Alive, Dying} ensures Winners(s.log) == [o] {
      assert ObjectInv(s, o);
    }
  }

  /** In no interleaving do two constructors win, and `current` never dereferences null. */
  lemma AtMostOneWinner(states: seq<State>, actions: seq<Action>, i: nat)
    requires IsRun(states, actions) && i < |states|
    ensures |Winners(states[i].log)| <= 1
    ensures NullDereference !in states[i].log
    ensures forall o: Object :: StatusOf(states[i], o) in {Alive, Dying} ==> Winners(states[i].log) == [o]
  {
    RunInv(states, actions, i);
    WinnersOfLive(states[i]);
  }

  /** Some thread is at work on an object that is under construction or being destroyed. */
  ghost predicate HasWorker(s: State, o: Object) {
    StatusOf(s, o) in {Constructing, Dying} ==> exists t: Thread :: ObjectOf(PhaseOf(s, t)) == Some(o)
  }

  lemma OthersStay(s: State, a: Action, u: Thread)
    requires Next(s, a).Some? && u != a.t
    ensures PhaseOf(Next(s, a).value, u) == PhaseOf(s, u)
  {
  }

  /** Only the thread that acts on an object changes its status. */
  lemma StatusStays(s: State, a: Action, o: Object)
    requires Next(s, a).Some?
    ensures var s' := Next(s, a).value;
      StatusOf(s', o) in {Constructing, Dying} && ObjectOf(PhaseOf(s', a.t)) != Some(o) ==>
        StatusOf(s', o) == StatusOf(s, o) && ObjectOf(PhaseOf(s, a.t)) != Some(o)
  {
  }

  lemma StepKeepsWorker(s: State, a: Action, o: Object)
    requires HasWorker(s, o) && Next(s, a).Some?
    ensures HasWorker(Next(s, a).value, o)
  {
    var s' := Next(s, a).value;
    StatusStays(s, a, o);
    if StatusOf(s', o) in {Constructing, Dying} && ObjectOf(PhaseOf(s', a.t)) != Some(o) {
      var u: Thread :| ObjectOf(PhaseOf(s, u)) == Some(o);
      OthersStay(s, a, u);
      assert ObjectOf(PhaseOf(s', u)) == Some(o);
    }
  }

  lemma {:induction false} RunHasWorker(states: seq<State>, actions: seq<Action>, i: nat, o: Object)
    requires IsRun(states, actions) && i < |states|
    ensures HasWorker(states[i], o)
  {
    if i > 0 {
      RunHasWorker(states, actions, i - 1, o);
      assert StepAt(states, actions, i - 1);
      StepKeepsWorker(states[i - 1], actions[i - 1], o);
    }
  }

  /** No thread constructs or destroys `o`. */
  ghost predicate IsAtRest(s: State, o: Object) {
    forall t: Thread :: ObjectOf(PhaseOf(s, t)) != Some(o)
  }

  /** A reference that `current` returns is to the one object that won, whose constructor has
      installed it and whose destructor has not yet marked it gone.  The object is alive exactly
      when no thread is still in its constructor or already in its destructor. */
  lemma ReturnedIsTheInstance(states: seq<State>, actions: seq<Action>, i: nat, o: Object)
    requires IsRun(states, actions) && i < |actions|
    requires states[i + 1].log == states[i].log + [Returned(o)]
    ensures states[i].pointer == Live(o) && Winners(states[i].log) == [o]
    ensures StatusOf(states[i], o) != Unused
    ensures StatusOf(states[i], o) == Alive <==> IsAtRest(states[i], o)
  {
    RunInv(states, actions, i);
    RunHasWorker(states, actions, i, o);
    assert StepAt(states, actions, i);
    assert states[i + 1].log[|states[i].log|] == Returned(o);
    LastEvent(states[i], actions[i], o);
    forall t: Thread | ObjectOf(PhaseOf(states[i], t)) == Some(o) ensures StatusOf(states[i], o) != Alive {
      assert PhaseInv(states[i], t);
    }
  }

  /** An idle thread begins to construct an object and installs it. */
  lemma InstallFrom(s: State, t: Thread, o: Object) returns (states: seq<State>)
    requires s.pointer == Null && PhaseOf(s, t) == Idle && o != STATIC && StatusOf(s, o) == Unused
    ensures IsPath(states, [BeginConstruct(t, o), Proceed(t)]) && states[0] == s
    ensures states[2] == State(Live(o), s.guard, s.phases[t := Initialising(o)],
                               s.statuses[o := Constructing], s.log + [Won(o)])
  {
    var actions := [BeginConstruct(t, o), Proceed(t)];
    var begun := Mark(At(s, t, Exchanging(o)), o, Constructing);
    var won := Log(At(begun, t, Initialising(o)), Won(o)).(pointer := Live(o));
    states := [s, begun, won];
    assert StepAt(states, actions, 0) && StepAt(states, actions, 1);
    assert won.phases == s.phases[t := Initialising(o)];
  }

  /** With an object installed, an idle thread that asks for it passes the first load. */
  lemma LookFrom(s: State, u: Thread) returns (states: seq<State>)
    requires s.pointer.Live? && PhaseOf(s, u) == Idle
    ensures IsPath(states, [BeginCurrent(u, OpenExisting), Proceed(u)]) && states[0] == s
    ensures states[2] == At(s, u, SecondLoad)
  {
    var actions := [BeginCurrent(u, OpenExisting), Proceed(u)];
    var asked := At(s, u, FirstLoad(OpenExisting));
    states := [s, asked, At(asked, u, SecondLoad)];
    assert StepAt(states, actions, 0) && StepAt(states, actions, 1);
    assert states[2].phases == s.phases[u := SecondLoad];
  }

  lemma PathOfOne(s: State, a: Action) returns (states: seq<State>)
    requires Next(s, a).Some?
    ensures IsPath(states, [a]) && states == [s, Next(s, a).value]
  {
    states := [s, Next(s, a).value];
    assert StepAt(states, [a], 0);
  }

  /** The reference can be to an object still under construction: thread 2 gets it as soon as
      thread 1 has installed it. */
  lemma ReturnedWhileConstructing() returns (states: seq<State>, actions: seq<Action>)
    ensures IsRun(states, actions)
    ensures actions == [BeginConstruct(1, 5), Proceed(1), BeginCurrent(2, OpenExisting), Proceed(2), Proceed(2)]
    ensures states[5].log == states[4].log + [Returned(5)]
    ensures StatusOf(states[4], 5) == Constructing && PhaseOf(states[5], 1) == Initialising(5)
  {
    var installed := InstallFrom(INITIAL, 1, 5);
    var looked := LookFrom(installed[2], 2);
    var returned := PathOfOne(looked[2], Proceed(2));
    states := PathConcat(looked, [BeginCurrent(2, OpenExisting), Proceed(2)], returned, [Proceed(2)]);
    assert states[2] == returned[0] && states[3] == returned[1];
    actions := [BeginCurrent(2, OpenExisting), Proceed(2)] + [Proceed(2)];
    var tail := states;
    states := PathConcat(installed, [BeginConstruct(1, 5), Proceed(1)], tail, actions);
    assert states[4] == tail[2] && states[5] == tail[3];
    actions := [BeginConstruct(1, 5), Proceed(1)] + actions;
  }

  /** A call of `current` that has passed its first load still returns the object after the
      object's destructor has begun. */
  lemma DestroyAndReturn(s: State, t: Thread, u: Thread, o: Object) returns (states: seq<State>)
    requires s.pointer == Live(o) && StatusOf(s, o) == Alive && t != u
    requires PhaseOf(s, t) == Idle && PhaseOf(s, u) == SecondLoad
    ensures IsPath(states, [BeginDestroy(t, o), Proceed(u)]) && states[0] == s
    ensures states[2].log == states[1].log + [Returned(o)]
    ensures StatusOf(states[1], o) == Dying && PhaseOf(states[2], t) == Storing(o)
  {
    var actions := [BeginDestroy(t, o), Proceed(u)];
    var dying := Mark(At(s, t, Storing(o)), o, Dying);
    states := [s, dying, Deref(dying, u)];
    assert StepAt(states, actions, 0) && StepAt(states, actions, 1);
  }

  lemma LookDestroyReturn(s: State, t: Thread, u: Thread, o: Object) returns (states: seq<State>)
    requires s.pointer == Live(o) && StatusOf(s, o) == Alive && t != u
    requires PhaseOf(s, t) == Idle && PhaseOf(s, u) == Idle
    ensures IsPath(states, [BeginCurrent(u, OpenExisting), Proceed(u)] + [BeginDestroy(t, o), Proceed(u)])
    ensures states[0] == s && states[4].log == states[3].log + [Returned(o)]
    ensures StatusOf(states[3], o) == Dying && PhaseOf(states[4], t) == Storing(o)
  {
    var looked := LookFrom(s, u);
    var returned := DestroyAndReturn(looked[2], t, u, o);
    var before, after := [BeginCurrent(u, OpenExisting), Proceed(u)], [BeginDestroy(t, o), Proceed(u)];
    states := PathConcat(looked, before, returned, after);
    assert states[3] == returned[1] && states[4] == returned[2];
  }

  /** Or to one whose destructor has begun. */
  lemma ReturnedWhileDying() returns (states: seq<State>, actions: seq<Action>)
    ensures IsRun(states, actions)
    ensures actions == [BeginConstruct(1, 5), Proceed(1), Proceed(1),
                        BeginCurrent(2, OpenExisting), Proceed(2), BeginDestroy(1, 5), Proceed(2)]
    ensures states[7].log == states[6].log + [Returned(5)]
    ensures StatusOf(states[6], 5) == Dying && PhaseOf(states[7], 1) == Storing(5)
  {
    var installed := InstallFrom(INITIAL, 1, 5);
    var finished := PathOfOne(installed[2], Proceed(1));
    assert finished[1] == Finish(installed[2], 1, 5);
    var tail := LookDestroyReturn(finished[1], 1, 2, 5);
    actions := [BeginCurrent(2, OpenExisting), Proceed(2)] + [BeginDestroy(1, 5), Proceed(2)];
    var rest := PathConcat(finished, [Proceed(1)], tail, actions);
    assert rest[4] == tail[3] && rest[5] == tail[4];
    actions := [Proceed(1)] + actions;
    states := PathConcat(installed, [BeginConstruct(1, 5), Proceed(1)], rest, actions);
    assert states[6] == rest[4] && states[7] == rest[5];
    actions := [BeginConstruct(1, 5), Proceed(1)] + actions;
  }

  lemma LastEvent(s: State, a: Action, o: Object)
    requires Next(s, a).Some? && Next(s, a).value.log == s.log + [Returned(o)]
    ensures s.pointer == Live(o)
  {
    var s' := Next(s, a).value;
    assert |s'.log| == |s.log| + 1 && s'.log[|s.log|] == Returned(o);
  }

  function Rank(p: Pointer): nat {
    match p
    case Null => 0
    case Live(_) => 1
    case Sentinel => 2
  }

  /** Step `k` leaves the pointer alone, or moves it from null to an object or on to the sentinel. */
  ghost predicate MovesAtMostOne(states: seq<State>, k: int)
    requires 0 <= k < |states| - 1
  {
    var p, q := states[k].pointer, states[k + 1].pointer;
    q == p || Rank(q) == Rank(p) + 1
  }

  lemma PointerStep(s: State, a: Action)
    requires Inv(s) && Next(s, a).Some?
    ensures var p := Next(s, a).value.pointer; p == s.pointer || Rank(p) == Rank(s.pointer) + 1
  {
    if a.Proceed? {
      assert PhaseInv(s, a.t);
    }
  }

  /** The pointer only moves from null to the one instance to the sentinel, and skips neither. */
  lemma {:induction false} PointerIsMonotone(states: seq<State>, actions: seq<Action>, i: nat, j: nat)
    requires IsRun(states, actions) && i <= j < |states|
    ensures Rank(states[i].pointer) <= Rank(states[j].pointer)
    ensures Rank(states[i].pointer) == Rank(states[j].pointer) ==> states[i].pointer == states[j].pointer
    ensures forall k :: i <= k < j ==> MovesAtMostOne(states, k)
  {
    if i < j {
      PointerIsMonotone(states, actions, i, j - 1);
      RunInv(states, actions, j - 1);
      assert StepAt(states, actions, j - 1);
      PointerStep(states[j - 1], actions[j - 1]);
      assert MovesAtMostOne(states, j - 1);
    }
  }

  // ----- no call is stuck

  /** How many steps of its own a thread is at most away from being idle. */
  function Work(p: Phase): nat {
    match p
    case Idle => 0
    case Exchanging(_) => 3
    case Initialising(_) => 2
    case Storing(_) => 2
    case Resetting(_) => 1
    case FirstLoad(_) => 5
    case NeedsStatic => 4
    case SecondLoad => 1
  }

  /** The same for another thread that initialises the static object. */
  function GuardWork(s: State, t: Thread): nat {
    if s.guard.Running? && s.guard.t != t then Work(PhaseOf(s, s.guard.t)) else 0
  }

  /** The thread that runs the static object's initialisation is in its constructor. */
  lemma GuardIsHeld(s: State, u: Thread)
    requires Inv(s) && s.guard == Running(u)
    ensures PhaseOf(s, u) in {Exchanging(STATIC), Initialising(STATIC)}
  {
    assert PhaseInv(s, u);
  }

  /** The thread to move so that a call of `t` comes to its end: `t` itself unless it waits. */
  function Mover(s: State, t: Thread): Thread {
    if PhaseOf(s, t).NeedsStatic? && s.guard.Running? then s.guard.t else t
  }

  lemma MoverCanProceed(s: State, t: Thread)
    requires Inv(s) && PhaseOf(s, t) != Idle
    ensures Next(s, Proceed(Mover(s, t))).Some?
  {
    if s.guard.Running? {
      GuardIsHeld(s, s.guard.t);
    }
  }

  /** A thread's own steps bring it closer to being idle. */
  lemma ProceedShrinks(s: State, t: Thread)
    requires Next(s, Proceed(t)).Some?
    ensures Work(PhaseOf(Next(s, Proceed(t)).value, t)) < Work(PhaseOf(s, t))
  {
  }

  /** And they start no initialisation of the static object but the thread's own. */
  lemma GuardWorkStays(s: State, t: Thread)
    requires Next(s, Proceed(t)).Some?
    ensures GuardWork(Next(s, Proceed(t)).value, t) <= GuardWork(s, t)
  {
  }

  lemma HolderShrinks(s: State, t: Thread)
    requires Inv(s) && PhaseOf(s, t) == NeedsStatic && s.guard.Running?
    ensures s.guard.t != t && Next(s, Proceed(s.guard.t)).Some?
    ensures var s' := Next(s, Proceed(s.guard.t)).value;
      PhaseOf(s', t) == PhaseOf(s, t) && GuardWork(s', t) < GuardWork(s, t)
  {
    GuardIsHeld(s, s.guard.t);
  }

  lemma MoveShrinks(s: State, t: Thread)
    requires Inv(s) && PhaseOf(s, t) != Idle && Next(s, Proceed(Mover(s, t))).Some?
    ensures var s' := Next(s, Proceed(Mover(s, t))).value;
      Work(PhaseOf(s', t)) + GuardWork(s', t) < Work(PhaseOf(s, t)) + GuardWork(s, t)
  {
    if PhaseOf(s, t).NeedsStatic? && s.guard.Running? {
      HolderShrinks(s, t);
    } else {
      ProceedShrinks(s, t);
      GuardWorkStays(s, t);
    }
  }

  /** From a state with the invariant every call can end. */
  lemma {:induction false} CanEnd(s: State, t: Thread) returns (states: seq<State>, actions: seq<Action>)
    requires Inv(s)
    ensures IsPath(states, actions) && states[0] == s && PhaseOf(states[|actions|], t) == Idle
    ensures |actions| <= Work(PhaseOf(s, t)) + GuardWork(s, t)
    ensures forall i :: 0 <= i < |actions| ==> actions[i].Proceed?
    decreases Work(PhaseOf(s, t)) + GuardWork(s, t)
  {
    if PhaseOf(s, t) == Idle {
      states, actions := [s], [];
    } else {
      var a := Proceed(Mover(s, t));
      MoverCanProceed(s, t);
      MoveShrinks(s, t);
      StepKeepsInv(s, a);
      var first := PathOfOne(s, a);
      var rest, more := CanEnd(Next(s, a).value, t);
      states := PathConcat(first, [a], rest, more);
      actions := [a] + more;
      assert states[1 + |more|] == rest[|more|];
    }
  }

  /** At every point of every run a thread in a call can proceed, or it waits for the static object
      and the thread that initialises that can.  Nothing but steps already begun, at most eight of
      them, is needed for the call to end. */
  lemma EveryCallCanEnd(states: seq<State>, actions: seq<Action>, i: nat, t: Thread)
    returns (onward: seq<State>, steps: seq<Action>)
    requires IsRun(states, actions) && i < |states|
    ensures PhaseOf(states[i], t) != Idle ==>
      || Next(states[i], Proceed(t)).Some?
      || (states[i].guard.Running? && states[i].guard.t != t && Next(states[i], Proceed(states[i].guard.t)).Some?)
    ensures IsPath(onward, steps) && onward[0] == states[i] && PhaseOf(onward[|steps|], t) == Idle
    ensures |steps| <= 8 && forall k :: 0 <= k < |steps| ==> steps[k].Proceed?
  {
    RunInv(states, actions, i);
    if PhaseOf(states[i], t) != Idle {
      MoverCanProceed(states[i], t);
      if PhaseOf(states[i], t).NeedsStatic? && states[i].guard.Running? {
        HolderShrinks(states[i], t);
      }
    }
    if states[i].guard.Running? {
      GuardIsHeld(states[i], states[i].guard.t);
    }
    onward, steps := CanEnd(states[i], t);
  }

  // ----- `current` that creates on demand

  /** In the run, the thread of action `k` installs its object. */
  ghost predicate WinsAt(states: seq<State>, actions: seq<Action>, k: int)
    requires 0 <= k < |actions| < |states|
  {
    && actions[k].Proceed?
    && PhaseOf(states[k], actions[k].t).Exchanging?
    && states[k].pointer == Null
  }

  lemma OnlyWinningLeavesNull(s: State, a: Action)
    requires Inv(s) && Next(s, a).Some? && s.pointer == Null && Next(s, a).value.pointer != Null
    ensures a.Proceed? && PhaseOf(s, a.t).Exchanging?
  {
    if a.Proceed? {
      assert PhaseInv(s, a.t);
    }
  }

  lemma {:induction false} SomeoneWins(states: seq<State>, actions: seq<Action>, i: nat, j: nat)
    requires IsRun(states, actions) && i <= j < |states|
    requires states[i].pointer == Null && states[j].pointer != Null
    ensures exists k :: i <= k < j && WinsAt(states, actions, k)
  {
    assert StepAt(states, actions, j - 1);
    if states[j - 1].pointer == Null {
      RunInv(states, actions, j - 1);
      OnlyWinningLeavesNull(states[j - 1], actions[j - 1]);
      assert WinsAt(states, actions, j - 1);
    } else {
      SomeoneWins(states, actions, i, j - 1);
    }
  }

  /** Once a constructor has won, the pointer is never null again. */
  lemma WonForGood(states: seq<State>, actions: seq<Action>, k: nat, j: nat)
    requires IsRun(states, actions) && k < j < |states| && WinsAt(states, actions, k)
    ensures states[j].pointer != Null
  {
    assert StepAt(states, actions, k);
    PointerIsMonotone(states, actions, k + 1, j);
  }

  /** A call of `current` found no instance at its first load, at `i`, and gets to the exchange of
      the static object, at `j`.  It throws exactly when it was overtaken, that is, when some
      constructor won in between; the instance then exists although the call throws. */
  lemma DuplicateIffOvertaken(states: seq<State>, actions: seq<Action>, i: nat, j: nat, t: Thread)
    requires IsRun(states, actions) && i < j < |actions|
    requires actions[i] == Proceed(t) && PhaseOf(states[i], t) == FirstLoad(IfNeeded) && states[i].pointer == Null
    requires actions[j] == Proceed(t) && PhaseOf(states[j], t) == Exchanging(STATIC)
    ensures states[j + 1].log == states[j].log + [Duplicate(STATIC)] <==>
            exists k :: i <= k < j && WinsAt(states, actions, k)
    ensures states[j + 1].log == states[j].log + [Duplicate(STATIC)] ==> |Winners(states[j].log)| == 1
  {
    RunInv(states, actions, j);
    assert StepAt(states, actions, j);
    assert states[j + 1] == Exchange(states[j], t, STATIC);
    if states[j].pointer == Null {
      assert states[j + 1].log[|states[j].log|] == Won(STATIC);
    } else {
      SomeoneWins(states, actions, i, j);
    }
    if k :| i <= k < j && WinsAt(states, actions, k) {
      WonForGood(states, actions, k, j);
    }
  }

  // ----- what each step of a call answers

  /** A call of `current` found no instance exactly when its caller asked for an existing one and the
      pointer is null; only then does it end at its first load, and it never changes anything. */
  lemma FirstLoadOutcome(states: seq<State>, actions: seq<Action>, i: nat, t: Thread, creation: Creation)
    requires IsRun(states, actions) && i < |actions|
    requires actions[i] == Proceed(t) && PhaseOf(states[i], t) == FirstLoad(creation)
    ensures states[i + 1].log == states[i].log + [NotCreated] <==>
            creation == OpenExisting && states[i].pointer == Null
    ensures PhaseOf(states[i + 1], t) == Idle <==> creation == OpenExisting && states[i].pointer == Null
    ensures PhaseOf(states[i + 1], t) == NeedsStatic <==> creation == IfNeeded && states[i].pointer == Null
    ensures PhaseOf(states[i + 1], t) == SecondLoad <==> states[i].pointer != Null
    ensures PhaseOf(states[i + 1], t) != Idle ==> states[i + 1].log == states[i].log
    ensures states[i + 1].(phases := states[i].phases, log := states[i].log) == states[i]
  {
    assert StepAt(states, actions, i);
    assert |states[i].log + [NotCreated]| != |states[i].log|;
  }

  /** Nothing leads towards the static object. */
  ghost predicate NoStatic(s: State) {
    && s.guard == Untouched && StatusOf(s, STATIC) == Unused
    && forall t: Thread :: AwayFromStatic(PhaseOf(s, t))
  }

  predicate AwayFromStatic(p: Phase) {
    p != FirstLoad(IfNeeded) && p != NeedsStatic && ObjectOf(p) != Some(STATIC)
  }

  lemma NoStaticStep(s: State, a: Action)
    requires NoStatic(s) && Next(s, a).Some?
    requires a.BeginCurrent? ==> a.creation == OpenExisting
    ensures NoStatic(Next(s, a).value)
  {
    var s' := Next(s, a).value;
    assert AwayFromStatic(PhaseOf(s, a.t));
    forall t: Thread ensures AwayFromStatic(PhaseOf(s', t)) {
      assert AwayFromStatic(PhaseOf(s, t));
    }
  }

  /** As long as no caller lets `current` create the instance, the static object is never begun. */
  lemma {:induction false} OpenExistingCreatesNothing(states: seq<State>, actions: seq<Action>, i: nat)
    requires IsRun(states, actions) && i < |states|
    requires forall k :: 0 <= k < |actions| && actions[k].BeginCurrent? ==> actions[k].creation == OpenExisting
    ensures NoStatic(states[i]) && Won(STATIC) !in states[i].log
  {
    if i > 0 {
      OpenExistingCreatesNothing(states, actions, i - 1);
      assert StepAt(states, actions, i - 1);
      NoStaticStep(states[i - 1], actions[i - 1]);
      assert actions[i - 1].Proceed? ==> AwayFromStatic(PhaseOf(states[i - 1], actions[i - 1].t));
    }
  }

  /** A constructor installs its object exactly when none did before, and throws otherwise.  That of
      the static object then leaves its guard open for another try. */
  lemma ExchangeOutcome(states: seq<State>, actions: seq<Action>, i: nat, t: Thread, o: Object)
    requires IsRun(states, actions) && i < |actions|
    requires actions[i] == Proceed(t) && PhaseOf(states[i], t) == Exchanging(o)
    ensures states[i + 1].log == states[i].log + [if WonBefore(states, actions, i) then Duplicate(o) else Won(o)]
    ensures WonBefore(states, actions, i) ==>
      && states[i + 1].pointer == states[i].pointer
      && PhaseOf(states[i + 1], t) == Idle && StatusOf(states[i + 1], o) == Unused
    ensures WonBefore(states, actions, i) && o == STATIC ==> states[i + 1].guard == Untouched
    ensures !WonBefore(states, actions, i) ==>
      states[i + 1].pointer == Live(o) && PhaseOf(states[i + 1], t) == Initialising(o)
  {
    assert StepAt(states, actions, i);
    assert states[i + 1] == Exchange(states[i], t, o);
    if states[i].pointer != Null {
      SomeoneWins(states, actions, 0, i);
    }
    if k :| 0 <= k < i && WinsAt(states, actions, k) {
      WonForGood(states, actions, k, i);
    }
  }

  ghost predicate WonBefore(states: seq<State>, actions: seq<Action>, i: nat)
    requires i <= |actions| < |states|
  {
    exists k :: 0 <= k < i && WinsAt(states, actions, k)
  }

  /** In the run, the thread of action `k` marks the instance as gone. */
  ghost predicate MarksAt(states: seq<State>, actions: seq<Action>, k: int)
    requires 0 <= k < |actions| < |states|
  {
    actions[k].Proceed? && PhaseOf(states[k], actions[k].t).Storing?
  }

  lemma OnlyMarkingMakesSentinel(s: State, a: Action)
    requires Inv(s) && Next(s, a).Some? && s.pointer != Sentinel && Next(s, a).value.pointer == Sentinel
    ensures a.Proceed? && PhaseOf(s, a.t).Storing?
  {
  }

  lemma {:induction false} SomeoneMarked(states: seq<State>, actions: seq<Action>, i: nat)
    requires IsRun(states, actions) && i < |states| && states[i].pointer == Sentinel
    ensures exists k :: 0 <= k < i && MarksAt(states, actions, k)
  {
    assert StepAt(states, actions, i - 1);
    if states[i - 1].pointer == Sentinel {
      SomeoneMarked(states, actions, i - 1);
    } else {
      RunInv(states, actions, i - 1);
      OnlyMarkingMakesSentinel(states[i - 1], actions[i - 1]);
      assert MarksAt(states, actions, i - 1);
    }
  }

  lemma MarkedForGood(states: seq<State>, actions: seq<Action>, k: nat, i: nat)
    requires IsRun(states, actions) && k < i < |states| && MarksAt(states, actions, k)
    ensures states[i].pointer == Sentinel
  {
    assert StepAt(states, actions, k);
    PointerIsMonotone(states, actions, k + 1, i);
  }

  ghost predicate MarkedBefore(states: seq<State>, actions: seq<Action>, i: nat)
    requires i <= |actions| < |states|
  {
    exists k :: 0 <= k < i && MarksAt(states, actions, k)
  }

  /** At its second load a call ends: it throws exactly when some destructor has marked the instance
      as gone, for good, and otherwise returns the object that the pointer shows. */
  lemma SecondLoadOutcome(states: seq<State>, actions: seq<Action>, i: nat, t: Thread)
    requires IsRun(states, actions) && i < |actions|
    requires actions[i] == Proceed(t) && PhaseOf(states[i], t) == SecondLoad
    ensures PhaseOf(states[i + 1], t) == Idle
    ensures MarkedBefore(states, actions, i) ==> states[i + 1].log == states[i].log + [WasDestroyed]
    ensures !MarkedBefore(states, actions, i) ==>
      states[i].pointer.Live? && states[i + 1].log == states[i].log + [Returned(states[i].pointer.o)]
  {
    RunInv(states, actions, i);
    assert PhaseInv(states[i], t);
    assert StepAt(states, actions, i);
    if states[i].pointer == Sentinel {
      SomeoneMarked(states, actions, i);
    }
    if k :| 0 <= k < i && MarksAt(states, actions, k) {
      MarkedForGood(states, actions, k, i);
    }
  }

  /** A thread in these phases is inside a call of `current`. */
  predicate InCurrent(p: Phase) {
    p.FirstLoad? || p in {NeedsStatic, SecondLoad, Exchanging(STATIC), Initialising(STATIC)}
  }

  predicate IsAnswer(e: Event) {
    e.Returned? || e == NotCreated || e == WasDestroyed || e == Duplicate(STATIC)
  }

  /** No call of `current` ends without an answer: the step that ends it adds just one event, a
      returned reference or one of the three errors. */
  lemma EveryCallAnswers(states: seq<State>, actions: seq<Action>, i: nat, t: Thread)
    requires IsRun(states, actions) && i < |actions|
    requires InCurrent(PhaseOf(states[i], t)) && PhaseOf(states[i + 1], t) == Idle
    ensures actions[i] == Proceed(t)
    ensures |states[i + 1].log| == |states[i].log| + 1 && states[i].log < states[i + 1].log
    ensures IsAnswer(states[i + 1].log[|states[i].log|])
  {
    RunInv(states, actions, i);
    assert PhaseInv(states[i], t);
    assert StepAt(states, actions, i);
    if actions[i].t != t {
      OthersStay(states[i], actions[i], t);
    }
  }

  /** The guard is done only after the static object won, and touched for good once it has. */
  ghost predicate GuardFollows(s: State) {
    && (s.guard == Done ==> Winners(s.log) == [STATIC])
    && (Winners(s.log) == [STATIC] ==>
          s.guard == Done || (s.guard.Running? && PhaseOf(s, s.guard.t) == Initialising(STATIC)))
  }

  lemma StepLog(s: State, a: Action) returns (events: seq<Event>)
    requires Next(s, a).Some?
    ensures Next(s, a).value.log == s.log + events
    ensures if a.Proceed? && PhaseOf(s, a.t).Exchanging? && s.pointer == Null then events == [Won(PhaseOf(s, a.t).o)]
            else events == [] || (|events| == 1 && !events[0].Won?)
  {
    events := Next(s, a).value.log[|s.log|..];
  }

  lemma WinnersStep(s: State, a: Action)
    requires Next(s, a).Some?
    ensures var s' := Next(s, a).value;
      Winners(s'.log) == Winners(s.log) +
        if a.Proceed? && PhaseOf(s, a.t).Exchanging? && s.pointer == Null then [PhaseOf(s, a.t).o] else []
  {
    var events := StepLog(s, a);
    if events == [] {
      assert s.log + events == s.log;
    } else {
      WinnersLog(s.log, events[0]);
      assert events == [events[0]];
    }
  }

  lemma DoneFollows(s: State, a: Action)
    requires Inv(s) && GuardFollows(s) && Next(s, a).Some?
    ensures Next(s, a).value.guard == Done ==> Winners(Next(s, a).value.log) == [STATIC]
  {
    assert PhaseInv(s, a.t);
    WinnersStep(s, a);
  }

  lemma WinnerFollows(s: State, a: Action)
    requires Inv(s) && GuardFollows(s) && Next(s, a).Some?
    requires Winners(Next(s, a).value.log) == [STATIC]
    ensures var s' := Next(s, a).value;
      s'.guard == Done || (s'.guard.Running? && PhaseOf(s', s'.guard.t) == Initialising(STATIC))
  {
    assert PhaseInv(s, a.t);
    WinnersStep(s, a);
    if Winners(s.log) == [STATIC] {
      if s.guard.Running? && s.guard.t != a.t {
        OthersStay(s, a, s.guard.t);
      }
    } else {
      assert s.pointer == Null && Winners(s.log) == [];
      assert Winners(Next(s, a).value.log)[0] == PhaseOf(s, a.t).o;
    }
  }

  lemma GuardFollowsStep(s: State, a: Action)
    requires Inv(s) && GuardFollows(s) && Next(s, a).Some?
    ensures GuardFollows(Next(s, a).value)
  {
    DoneFollows(s, a);
    if Winners(Next(s, a).value.log) == [STATIC] {
      WinnerFollows(s, a);
    }
  }

  /** The guard is done exactly when the static object was the one to win and its constructor has
      ended. */
  lemma {:induction false} GuardMeaning(states: seq<State>, actions: seq<Action>, i: nat)
    requires IsRun(states, actions) && i < |states|
    ensures GuardFollows(states[i])
  {
    if i > 0 {
      GuardMeaning(states, actions, i - 1);
      RunInv(states, actions, i - 1);
      assert StepAt(states, actions, i - 1);
      GuardFollowsStep(states[i - 1], actions[i - 1]);
    }
  }

  // ----- overtaking

  /** Whenever a thread is about to install the static object, an idle one can overtake it. */
  lemma OvertakeFrom(s: State, t: Thread, u: Thread, o: Object) returns (states: seq<State>)
    requires s.pointer == Null && PhaseOf(s, t) == Exchanging(STATIC) && PhaseOf(s, u) == Idle
    requires o != STATIC && StatusOf(s, o) == Unused
    ensures IsPath(states, [BeginConstruct(u, o), Proceed(u)] + [Proceed(u), Proceed(t)]) && states[0] == s
    ensures states[4].log == s.log + [Won(o), Duplicate(STATIC)]
    ensures StatusOf(states[4], o) == Alive && PhaseOf(states[4], t) == Idle
  {
    var installed := InstallFrom(s, u, o);
    var alive := Finish(installed[2], u, o);
    var thrown := Exchange(alive, t, STATIC);
    var actions := [Proceed(u), Proceed(t)];
    states := [installed[2], alive, thrown];
    assert StepAt(states, actions, 0) && StepAt(states, actions, 1);
    states := PathConcat(installed, [BeginConstruct(u, o), Proceed(u)], states, actions);
    assert thrown.log == s.log + [Won(o)] + [Duplicate(STATIC)];
  }

  /** With no instance yet, a call that may create one gets to the static object's exchange. */
  lemma AskFrom(s: State, t: Thread) returns (states: seq<State>)
    requires s.pointer == Null && s.guard == Untouched && PhaseOf(s, t) == Idle
    ensures IsPath(states, [BeginCurrent(t, IfNeeded), Proceed(t), Proceed(t)]) && states[0] == s
    ensures states[3] == State(Null, Running(t), s.phases[t := Exchanging(STATIC)],
                               s.statuses[STATIC := Constructing], s.log)
  {
    var actions := [BeginCurrent(t, IfNeeded), Proceed(t), Proceed(t)];
    var asked := At(s, t, FirstLoad(IfNeeded));
    var needs := At(asked, t, NeedsStatic);
    states := [s, asked, needs, EnterStatic(needs, t).value];
    assert StepAt(states, actions, 0) && StepAt(states, actions, 1) && StepAt(states, actions, 2);
    assert states[3].phases == s.phases[t := Exchanging(STATIC)];
  }

  /** So a call of `current` that may create the instance can throw because there is one: thread 1
      asks for the instance and thread 2 constructs object 5 in between. */
  lemma CurrentCanBeOvertaken() returns (states: seq<State>, actions: seq<Action>)
    ensures IsRun(states, actions)
    ensures actions == [BeginCurrent(1, IfNeeded), Proceed(1), Proceed(1),
                        BeginConstruct(2, 5), Proceed(2), Proceed(2), Proceed(1)]
    ensures states[7].log == [Won(5), Duplicate(STATIC)] && StatusOf(states[7], 5) == Alive
  {
    var asked := AskFrom(INITIAL, 1);
    var overtaken := OvertakeFrom(asked[3], 1, 2, 5);
    actions := [BeginConstruct(2, 5), Proceed(2)] + [Proceed(2), Proceed(1)];
    states := PathConcat(asked, [BeginCurrent(1, IfNeeded), Proceed(1), Proceed(1)], overtaken, actions);
    actions := [BeginCurrent(1, IfNeeded), Proceed(1), Proceed(1)] + actions;
    assert states[7] == overtaken[4];
  }
}
