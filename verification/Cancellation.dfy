/** Cancelling requests: a reader thread takes cancellation notices and the end of the transport off
    the wire while a dispatcher thread begins and finishes requests. Each action below is one atomic
    access of the shared state; every interleaving of them is possible. */
module Cancellation {
  import opened Wrappers

  type Id = nat

  const MAX_PENDING: nat := 256

  /** Where the reader is. `during` says whether a notice arrived while its request was being served. */
  datatype Reader =
    | Idle
    | Locking(id: Id, during: bool)    // in `notify`, about to take the lock of `active`
    | Holding(id: Id, during: bool)    // the active request matched: the lock is held
    | Missed(id: Id, during: bool)     // it did not: about to insert into `pending`
    | Closing                          // in `close_transport`, the transport is marked closed
    | Closed

  datatype Dispatcher =
    | Resting
    | Activated(id: Id)                     // in `begin`, `active` is set
    | Removed(id: Id, hit: bool)            // `pending` was asked
    | Deciding(id: Id, value: bool)         // the transport was asked
    | Serving(id: Id)
    | Deactivated(id: Id)                   // in `finish`, `active` is cleared
    | Asked(id: Id, closed: bool)           // the transport was asked
    | Answering(id: Id, closed: bool, cancelled: bool)

  /** What `finish` returned, and whether it saw the transport closed. */
  datatype Outcome = Outcome(cancelled: bool, sawClosed: bool)

  datatype State = State(
    active: Option<Id>,
    pending: set<Id>,
    closed: bool,
    cancel: bool,
    reader: Reader,
    dispatcher: Dispatcher,
    notified: set<Id>,         // notices received
    begun: set<Id>,            // requests begun
    early: set<Id>,            // notices kept in `pending` before their request began
    observed: set<Id>,         // notices begun and ended while their request was being served
    outcomes: map<Id, Outcome>)

  const INITIAL: State := State(None, {}, false, false, Idle, Resting, {}, {}, {}, {}, map[])

  datatype Action =
    | Notify(id: Id, short: bool)   // an id over 256 bytes is ignored
    | Lock | Store | Insert | MarkClosed | StoreClosed
    | Activate(id: Id) | Remove | AskOnBegin | StoreOnBegin
    | Deactivate | AskOnFinish | Load | StoreOnFinish

  /** Request ids are distinct: none begins twice. */
  predicate Enabled(s: State, a: Action) {
    match a
    case Notify(_, _) => s.reader.Idle?
    case Lock => s.reader.Locking?
    case Store => s.reader.Holding?
    case Insert => s.reader.Missed?
    case MarkClosed => s.reader.Idle?
    case StoreClosed => s.reader.Closing?
    case Activate(id) => s.dispatcher.Resting? && id !in s.begun && !s.reader.Holding?
    case Remove => s.dispatcher.Activated?
    case AskOnBegin => s.dispatcher.Removed?
    case StoreOnBegin => s.dispatcher.Deciding?
    case Deactivate => s.dispatcher.Serving? && !s.reader.Holding?
    case AskOnFinish => s.dispatcher.Deactivated?
    case Load => s.dispatcher.Asked?
    case StoreOnFinish => s.dispatcher.Answering?
  }

  /** A notice that began and ends while its request is served. */
  function Observe(s: State): set<Id>
    requires s.reader.Holding? || s.reader.Missed?
  {
    if s.reader.during && s.dispatcher == Serving(s.reader.id) then s.observed + {s.reader.id} else s.observed
  }

  function Next(s: State, a: Action): State
    requires Enabled(s, a)
  {
    match a
    case Notify(id, short) =>
      var noted := s.(notified := s.notified + {id});
      if short then noted.(reader := Locking(id, s.dispatcher == Serving(id))) else noted
    case Lock =>
      if s.active == Some(s.reader.id) then s.(reader := Holding(s.reader.id, s.reader.during))
      else s.(reader := Missed(s.reader.id, s.reader.during))
    case Store => s.(cancel := true, reader := Idle, observed := Observe(s))
    case Insert =>
      if |s.pending| < MAX_PENDING then
        s.(pending := s.pending + {s.reader.id}, reader := Idle, observed := Observe(s),
           early := if s.reader.id in s.begun then s.early else s.early + {s.reader.id})
      else s.(reader := Idle, observed := Observe(s))
    case MarkClosed => s.(closed := true, reader := Closing)
    case StoreClosed => s.(cancel := true, reader := Closed)
    case Activate(id) => s.(active := Some(id), dispatcher := Activated(id), begun := s.begun + {id})
    case Remove =>
      var id := s.dispatcher.id;
      s.(pending := s.pending - {id}, dispatcher := Removed(id, id in s.pending))
    case AskOnBegin => s.(dispatcher := Deciding(s.dispatcher.id, s.dispatcher.hit || s.closed))
    case StoreOnBegin => s.(cancel := s.dispatcher.value, dispatcher := Serving(s.dispatcher.id))
    case Deactivate => s.(active := None, dispatcher := Deactivated(s.dispatcher.id))
    case AskOnFinish => s.(dispatcher := Asked(s.dispatcher.id, s.closed))
    case Load =>
      var d := s.dispatcher;
      s.(dispatcher := Answering(d.id, d.closed, s.cancel && !d.closed))
    case StoreOnFinish =>
      var d := s.dispatcher;
      s.(cancel := d.closed, dispatcher := Resting, outcomes := s.outcomes[d.id := Outcome(d.cancelled, d.closed)])
  }

  ghost predicate Reaches(s: State, actions: seq<Action>, s': State)
    decreases |actions|
  {
    if actions == [] then s == s'
    else Enabled(s, actions[0]) && Reaches(Next(s, actions[0]), actions[1..], s')
  }

  // ----- what every step keeps -----

  /** A cancellation has a cause: a notice for the request, or the end of the transport. */
  predicate Caused(s: State, id: Id) {
    id in s.notified || s.closed
  }

  /** The request's flag has been stored by `begin`, now or in the past. */
  predicate PastBegin(s: State, id: Id) {
    && id in s.begun
    && (match s.dispatcher
        case Activated(j) => j != id
        case Removed(j, _) => j != id
        case Deciding(j, _) => j != id
        case _ => true)
  }

  /** `active` and the phases of both threads fit together. */
  ghost predicate Shape(s: State) {
    && (s.active == match s.dispatcher
          case Activated(id) => Some(id) case Removed(id, _) => Some(id)
          case Deciding(id, _) => Some(id) case Serving(id) => Some(id) case _ => None)
    && (!s.dispatcher.Resting? ==> s.dispatcher.id in s.begun)
    && (match s.reader
        case Locking(id, during) => id in s.notified && (during ==> PastBegin(s, id))
        case Holding(id, during) => id in s.notified && s.active == Some(id)
        case Missed(id, during) => id in s.notified && (during ==> PastBegin(s, id) && s.dispatcher != Serving(id))
        case _ => true)
    && (s.reader.Closing? || s.reader.Closed? ==> s.closed)
    && s.pending <= s.notified
  }

  /** No cancellation without a cause. */
  ghost predicate Safe(s: State) {
    && (match s.dispatcher
        case Removed(id, hit) => hit ==> Caused(s, id)
        case Deciding(id, value) => value ==> Caused(s, id)
        case Serving(id) => s.cancel ==> Caused(s, id)
        case Deactivated(id) => s.cancel ==> Caused(s, id)
        case Asked(id, closed) => s.cancel ==> Caused(s, id)
        case Answering(id, _, cancelled) => cancelled ==> Caused(s, id)
        case _ => true)
    && forall id :: id in s.outcomes && s.outcomes[id].cancelled ==> Caused(s, id)
  }

  /** The request is certain to end as cancelled, or to see the transport closed. */
  ghost predicate Certain(s: State, id: Id) {
    && (match s.dispatcher
        case Activated(j) => j == id ==> id in s.pending
        case Removed(j, hit) => j == id ==> hit
        case Deciding(j, value) => j == id ==> value
        case Serving(j) => j == id ==> s.cancel
        case Deactivated(j) => j == id ==> s.cancel
        case Asked(j, closed) => j == id ==> s.cancel
        case Answering(j, closed, cancelled) => j == id ==> cancelled || closed
        case _ => true)
    && (id in s.outcomes ==> s.outcomes[id].cancelled || s.outcomes[id].sawClosed)
  }

  /** A request finishes once, after it has begun. */
  ghost predicate FinishesOnce(s: State) {
    && (forall id :: id in s.outcomes ==> id in s.begun)
    && (!s.dispatcher.Resting? ==> s.dispatcher.id !in s.outcomes)
  }

  /** A notice kept early waits in `pending` until its request is certain to be cancelled. */
  ghost predicate EarlyKept(s: State, id: Id) {
    id in s.early ==> (id in s.begun || id in s.pending) && Certain(s, id)
  }

  /** One observed while its request was served makes that certain too. */
  ghost predicate ObservedKept(s: State, id: Id) {
    id in s.observed ==> PastBegin(s, id) && Certain(s, id)
  }

  ghost predicate NotLost(s: State) {
    FinishesOnce(s) && forall id :: EarlyKept(s, id) && ObservedKept(s, id)
  }

  ghost predicate Inv(s: State) {
    Shape(s) && Safe(s) && NotLost(s)
  }

  predicate ByReader(a: Action) {
    a.Notify? || a.Lock? || a.Store? || a.Insert? || a.MarkClosed? || a.StoreClosed?
  }

  lemma ShapeStep(s: State, a: Action)
    requires Shape(s) && Enabled(s, a)
    ensures Shape(Next(s, a))
  {
    hide Shape, Enabled, Next;
    if ByReader(a) {
      ShapeStepOfReader(s, a);
    } else {
      ShapeStepOfDispatcher(s, a);
    }
  }

  lemma ShapeStepOfReader(s: State, a: Action)
    requires Shape(s) && Enabled(s, a) && ByReader(a)
    ensures Shape(Next(s, a))
  {
  }

  lemma ShapeStepOfDispatcher(s: State, a: Action)
    requires Shape(s) && Enabled(s, a) && !ByReader(a)
    ensures Shape(Next(s, a))
  {
  }

  lemma SafeStep(s: State, a: Action)
    requires Shape(s) && Safe(s) && Enabled(s, a)
    ensures Safe(Next(s, a))
  {
    var s' := Next(s, a);
    assert forall id :: Caused(s, id) ==> Caused(s', id);
  }

  lemma CertainStep(s: State, a: Action, id: Id)
    requires FinishesOnce(s) && Enabled(s, a) && Certain(s, id)
    requires id in s.begun || id in s.pending
    ensures Certain(Next(s, a), id)
  {
    assert id in s.outcomes ==> id in s.begun;
    hide FinishesOnce;
    if ByReader(a) {
      CertainStepOfReader(s, a, id);
    } else {
      CertainStepOfDispatcher(s, a, id);
    }
  }

  lemma CertainStepOfReader(s: State, a: Action, id: Id)
    requires Enabled(s, a) && ByReader(a) && Certain(s, id)
    ensures Certain(Next(s, a), id)
  {
  }

  lemma CertainStepOfDispatcher(s: State, a: Action, id: Id)
    requires Enabled(s, a) && !ByReader(a) && Certain(s, id) && (id in s.begun || id in s.pending)
    requires id in s.outcomes ==> id in s.begun
    ensures Certain(Next(s, a), id)
  {
  }

  lemma FinishesOnceStep(s: State, a: Action)
    requires (!s.dispatcher.Resting? ==> s.dispatcher.id in s.begun) && FinishesOnce(s) && Enabled(s, a)
    ensures FinishesOnce(Next(s, a))
  {
  }

  lemma Unfinished(s: State, id: Id)
    requires FinishesOnce(s) && (id !in s.begun || s.dispatcher == Serving(id))
    ensures id !in s.outcomes
  {
  }

  lemma OnlyInsertKeeps(s: State, a: Action)
    requires Enabled(s, a) && !a.Insert?
    ensures Next(s, a).early == s.early
  {
  }

  /** The reader keeps a notice early only if its request has not begun. */
  lemma EarlyIsFresh(s: State, a: Action, id: Id)
    requires Enabled(s, a) && id in Next(s, a).early && id !in s.early
    ensures a.Insert? && s.reader.Missed? && id == s.reader.id && id !in s.begun && id in Next(s, a).pending
  {
    if !a.Insert? {
      OnlyInsertKeeps(s, a);
    }
  }

  lemma BegunOrPending(s: State, a: Action, id: Id)
    requires Shape(s) && Enabled(s, a) && (id in s.begun || id in s.pending)
    ensures id in Next(s, a).begun || id in Next(s, a).pending
  {
  }

  lemma FreshIsCertain(s: State, id: Id)
    requires Shape(s) && s.reader.Missed? && id !in s.begun && id !in s.outcomes
    ensures Certain(Next(s, Insert), id)
  {
  }

  lemma EarlyStep(s: State, a: Action, id: Id)
    requires Shape(s) && FinishesOnce(s) && Enabled(s, a) && EarlyKept(s, id)
    ensures EarlyKept(Next(s, a), id)
  {
    hide Certain, Next, Shape, FinishesOnce, Enabled;
    if id in Next(s, a).early {
      if id in s.early {
        CertainStep(s, a, id);
        BegunOrPending(s, a, id);
      } else {
        EarlyIsFresh(s, a, id);
        Unfinished(s, id);
        FreshIsCertain(s, id);
      }
    }
  }

  /** A notice becomes observed only as it sets the flag of the request being served. */
  lemma ObservedIsServed(s: State, a: Action, id: Id)
    requires Shape(s) && Enabled(s, a) && id in Next(s, a).observed && id !in s.observed
    ensures a.Store? && s.reader.Holding? && s.dispatcher == Serving(id) && id in s.begun
  {
  }

  lemma PastBeginStep(s: State, a: Action, id: Id)
    requires Enabled(s, a) && PastBegin(s, id)
    ensures PastBegin(Next(s, a), id)
  {
  }

  lemma ObservedStep(s: State, a: Action, id: Id)
    requires Shape(s) && FinishesOnce(s) && Enabled(s, a) && ObservedKept(s, id)
    ensures ObservedKept(Next(s, a), id)
  {
    hide Certain, Next, Shape, FinishesOnce, Enabled, PastBegin;
    if id in Next(s, a).observed {
      if id in s.observed {
        PastBeginIsBegun(s, id);
        CertainStep(s, a, id);
        PastBeginStep(s, a, id);
      } else {
        ObservedIsServed(s, a, id);
        Unfinished(s, id);
        FlaggedIsCertain(s, id);
      }
    }
  }

  lemma PastBeginIsBegun(s: State, id: Id)
    requires PastBegin(s, id)
    ensures id in s.begun
  {
  }

  lemma NotLostStep(s: State, a: Action)
    requires Shape(s) && NotLost(s) && Enabled(s, a)
    ensures NotLost(Next(s, a))
  {
    assert !s.dispatcher.Resting? ==> s.dispatcher.id in s.begun;
    hide EarlyKept, ObservedKept, FinishesOnce, Shape, Next, Enabled;
    FinishesOnceStep(s, a);
    forall id
      ensures EarlyKept(Next(s, a), id) && ObservedKept(Next(s, a), id)
    {
      EarlyStep(s, a, id);
      ObservedStep(s, a, id);
    }
  }

  lemma FlaggedIsCertain(s: State, id: Id)
    requires s.reader.Holding? && s.dispatcher == Serving(id) && id in s.begun && id !in s.outcomes
    ensures PastBegin(Next(s, Store), id) && Certain(Next(s, Store), id)
  {
  }

  lemma InvStep(s: State, a: Action)
    requires Inv(s) && Enabled(s, a)
    ensures Inv(Next(s, a))
  {
    hide Shape, Safe, NotLost, Enabled, Next;
    ShapeStep(s, a);
    SafeStep(s, a);
    NotLostStep(s, a);
  }

  lemma InitialInv()
    ensures Inv(INITIAL)
  {
  }

  lemma {:induction false} InvHolds(s: State, actions: seq<Action>, s': State)
    requires Inv(s) && Reaches(s, actions, s')
    ensures Inv(s')
    decreases |actions|
  {
    hide Inv;
    if actions != [] {
      InvStep(s, actions[0]);
      InvHolds(Next(s, actions[0]), actions[1..], s');
    }
  }

  /** In every interleaving, a set flag seen while a request is served, and a cancelled outcome, have
      a cause: a notice for that very request, or the end of the transport. No request inherits
      another's cancellation. */
  lemma CancellationHasCause(actions: seq<Action>, s: State)
    requires Reaches(INITIAL, actions, s)
    ensures s.dispatcher.Serving? && s.cancel ==> Caused(s, s.dispatcher.id)
    ensures forall id :: id in s.outcomes && s.outcomes[id].cancelled ==> Caused(s, id)
  {
    InitialInv();
    InvHolds(INITIAL, actions, s);
  }

  /** In every interleaving, a notice that was kept before its request began, or that began and ended
      while the request was being served, is not lost: the flag is set while the request is served,
      and it ends as cancelled unless the transport is seen closed. */
  lemma NoticeIsNotLost(actions: seq<Action>, s: State, id: Id)
    requires Reaches(INITIAL, actions, s) && (id in s.early || id in s.observed)
    ensures s.dispatcher == Serving(id) ==> s.cancel
    ensures id in s.outcomes ==> s.outcomes[id].cancelled || s.outcomes[id].sawClosed
  {
    InitialInv();
    InvHolds(INITIAL, actions, s);
    assert EarlyKept(s, id) && ObservedKept(s, id);
  }

  /** A notice that meets `begin` halfway can be lost: it sees its request active and sets the flag,
      and `begin` then stores what it had decided before. */
  lemma NoticeDuringBeginCanBeLost() returns (actions: seq<Action>, s: State)
    ensures Reaches(INITIAL, actions, s)
    ensures 1 in s.notified && s.reader.Idle? && !s.closed
    ensures 1 in s.outcomes && !s.outcomes[1].cancelled
  {
    actions, s := NoticeMeetsBegin();
    hide Reaches;
    actions, s := Then(actions, s, StoreOnBegin);
    actions, s := Then(actions, s, Deactivate);
    actions, s := Then(actions, s, AskOnFinish);
    actions, s := Then(actions, s, Load);
    actions, s := Then(actions, s, StoreOnFinish);
  }

  lemma NoticeMeetsBegin() returns (actions: seq<Action>, s: State)
    ensures Reaches(INITIAL, actions, s)
    ensures s == State(Some(1), {}, false, true, Idle, Deciding(1, false), {1}, {1}, {}, {}, map[])
  {
    actions, s := [], INITIAL;
    assert Reaches(INITIAL, actions, s);
    hide Reaches;
    actions, s := Then(actions, s, Activate(1));
    actions, s := Then(actions, s, Remove);
    actions, s := Then(actions, s, AskOnBegin);
    actions, s := Then(actions, s, Notify(1, true));
    actions, s := Then(actions, s, Lock);
    actions, s := Then(actions, s, Store);
  }

  /** The end of the transport can be lost the same way: a request is served with the flag clear
      although `close_transport` has returned. */
  lemma CloseDuringBeginCanBeLost() returns (actions: seq<Action>, s: State)
    ensures Reaches(INITIAL, actions, s)
    ensures s.reader.Closed? && s.dispatcher == Serving(1) && !s.cancel
  {
    actions, s := [], INITIAL;
    assert Reaches(INITIAL, actions, s);
    hide Reaches;
    actions, s := Then(actions, s, Activate(1));
    actions, s := Then(actions, s, Remove);
    actions, s := Then(actions, s, AskOnBegin);
    actions, s := Then(actions, s, MarkClosed);
    actions, s := Then(actions, s, StoreClosed);
    actions, s := Then(actions, s, StoreOnBegin);
  }

  /** A notice can also come too late for `pending`: it misses its request, `begin` takes the request's
      entry out of `pending`, and only then is the notice put in, where nothing reads it any more. */
  lemma NoticeCanBeLeftUnread() returns (actions: seq<Action>, s: State)
    ensures Reaches(INITIAL, actions, s) && Store !in actions
    ensures 1 in s.notified && s.reader.Idle? && !s.closed && s.pending == {1}
    ensures s.outcomes == map[1 := Outcome(false, false)]
  {
    actions, s := NoticeMissesRequest();
    hide Reaches;
    actions, s := Then(actions, s, AskOnFinish);
    actions, s := Then(actions, s, Load);
    actions, s := Then(actions, s, StoreOnFinish);
  }

  lemma NoticeMissesRequest() returns (actions: seq<Action>, s: State)
    ensures Reaches(INITIAL, actions, s) && Store !in actions
    ensures s == State(None, {1}, false, false, Idle, Deactivated(1), {1}, {1}, {}, {}, map[])
  {
    actions, s := NoticeMissesBegin();
    hide Reaches;
    actions, s := Then(actions, s, AskOnBegin);
    actions, s := Then(actions, s, StoreOnBegin);
    actions, s := Then(actions, s, Deactivate);
  }

  lemma NoticeMissesBegin() returns (actions: seq<Action>, s: State)
    ensures Reaches(INITIAL, actions, s) && Store !in actions
    ensures s == State(Some(1), {1}, false, false, Idle, Removed(1, false), {1}, {1}, {}, {}, map[])
  {
    actions, s := [], INITIAL;
    assert Reaches(INITIAL, actions, s);
    hide Reaches;
    actions, s := Then(actions, s, Notify(1, true));
    actions, s := Then(actions, s, Lock);
    actions, s := Then(actions, s, Activate(1));
    actions, s := Then(actions, s, Remove);
    actions, s := Then(actions, s, Insert);
  }

  lemma Then(actions: seq<Action>, s: State, a: Action) returns (actions': seq<Action>, s': State)
    requires Reaches(INITIAL, actions, s) && Enabled(s, a)
    ensures actions' == actions + [a] && s' == Next(s, a) && Reaches(INITIAL, actions', s')
  {
    actions', s' := actions + [a], Next(s, a);
    OneMore(INITIAL, actions, s, a);
  }

  lemma {:induction false} OneMore(s: State, actions: seq<Action>, s': State, a: Action)
    requires Reaches(s, actions, s') && Enabled(s', a)
    ensures Reaches(s, actions + [a], Next(s', a))
    decreases |actions|
  {
    if actions == [] {
      assert (actions + [a])[1..] == [];
    } else {
      assert (actions + [a])[1..] == actions[1..] + [a];
      OneMore(Next(s, actions[0]), actions[1..], s', a);
    }
  }

  // ----- when exactly the end of the transport reaches a request -----

  /** `begin` has decided, before the transport closed, to store a clear flag. */
  predicate StaleDecision(s: State) {
    s.dispatcher.Deciding? && !s.dispatcher.value
  }

  /** The transport is closed, and whatever is served from now on is served with the flag set. */
  ghost predicate ClosedForGood(s: State) {
    s.closed && s.reader.Closed? && !StaleDecision(s) && (s.dispatcher.Serving? ==> s.cancel)
  }

  lemma ClosedStep(s: State, a: Action)
    requires ClosedForGood(s) && Enabled(s, a)
    ensures ClosedForGood(Next(s, a))
  {
  }

  lemma {:induction false} ClosedStays(s: State, actions: seq<Action>, s': State)
    requires ClosedForGood(s) && Reaches(s, actions, s')
    ensures ClosedForGood(s')
    decreases |actions|
  {
    hide ClosedForGood, Enabled, Next;
    if actions != [] {
      ClosedStep(s, actions[0]);
      ClosedStays(Next(s, actions[0]), actions[1..], s');
    }
  }

  /** When `close_transport` returns, every request served from then on, in every continuation, is
      served with the flag set, if and only if no `begin` holds a stale decision at that moment. */
  lemma CloseReachesRequests(s: State)
    requires Shape(s) && s.reader.Closing?
    ensures !StaleDecision(s) <==>
      forall actions, s' :: Reaches(Next(s, StoreClosed), actions, s') ==> (s'.dispatcher.Serving? ==> s'.cancel)
  {
    hide Reaches;
    var returned := Next(s, StoreClosed);
    if StaleDecision(s) {
      var run, served := [StoreOnBegin], Next(returned, StoreOnBegin);
      OneStep(returned, StoreOnBegin);
      assert Reaches(returned, run, served);
      assert exists actions, s' :: Reaches(returned, actions, s') && s'.dispatcher.Serving? && !s'.cancel;
    } else {
      forall actions, s' | Reaches(returned, actions, s')
        ensures s'.dispatcher.Serving? ==> s'.cancel
      {
        ClosedStays(returned, actions, s');
      }
    }
  }

  lemma OneStep(s: State, a: Action)
    requires Enabled(s, a)
    ensures Reaches(s, [a], Next(s, a))
  {
    assert [a][1..] == [];
  }

  // ----- when exactly a notice for the active request reaches it -----

  /** `begin` has yet to store the request's flag, and nothing it has seen or will see sets it. */
  predicate WillClear(s: State, id: Id) {
    match s.dispatcher
    case Activated(j) => j == id && id !in s.pending && !s.closed
    case Removed(j, hit) => j == id && !hit && !s.closed
    case Deciding(j, value) => j == id && !value
    case _ => false
  }

  /** The request has begun, and if it is served from now on, then with the flag set. */
  ghost predicate SetForGood(s: State, id: Id) {
    id in s.begun && !WillClear(s, id) && (s.dispatcher == Serving(id) ==> s.cancel)
  }

  lemma SetStep(s: State, a: Action, id: Id)
    requires SetForGood(s, id) && Enabled(s, a)
    ensures SetForGood(Next(s, a), id)
  {
  }

  lemma {:induction false} SetStays(s: State, actions: seq<Action>, s': State, id: Id)
    requires SetForGood(s, id) && Reaches(s, actions, s')
    ensures SetForGood(s', id)
    decreases |actions|
  {
    hide SetForGood, Enabled, Next;
    if actions != [] {
      SetStep(s, actions[0], id);
      SetStays(Next(s, actions[0]), actions[1..], s', id);
    }
  }

  /** Left alone, `begin` goes on to serve the request with the flag clear. */
  lemma {:induction false} ServedClear(s: State, id: Id) returns (actions: seq<Action>, s': State)
    requires WillClear(s, id)
    ensures Reaches(s, actions, s') && s'.dispatcher == Serving(id) && !s'.cancel
    decreases if s.dispatcher.Activated? then 2 else if s.dispatcher.Removed? then 1 else 0
  {
    var a := if s.dispatcher.Activated? then Remove else if s.dispatcher.Removed? then AskOnBegin else StoreOnBegin;
    if s.dispatcher.Deciding? {
      OneStep(s, a);
      actions, s' := [a], Next(s, a);
    } else {
      var more;
      more, s' := ServedClear(Next(s, a), id);
      actions := [a] + more;
      assert actions[1..] == more;
    }
  }

  /** When a notice finds its request active, the request is served with the flag set from then on,
      in every continuation, if and only if `begin` is not about to clear the flag again. */
  lemma NoticeReachesRequest(s: State)
    requires Shape(s) && s.reader.Holding?
    ensures
      var id := s.reader.id;
      !WillClear(s, id) <==>
        forall actions, s' :: Reaches(Next(s, Store), actions, s') ==> (s'.dispatcher == Serving(id) ==> s'.cancel)
  {
    hide Reaches;
    var id, stored := s.reader.id, Next(s, Store);
    if WillClear(s, id) {
      var run, served := ServedClear(stored, id);
      assert Reaches(stored, run, served);
      assert exists actions, s' :: Reaches(stored, actions, s') && s'.dispatcher == Serving(id) && !s'.cancel;
    } else {
      assert SetForGood(stored, id);
      forall actions, s' | Reaches(stored, actions, s')
        ensures s'.dispatcher == Serving(id) ==> s'.cancel
      {
        SetStays(stored, actions, s', id);
      }
    }
  }

  // ----- when exactly a notice that missed its request reaches it -----

  /** A notice that found another request active, or none, is about to be put into `pending`, if there
      is room. It is in time if its request's entry is still to be read; past that, only what `begin`
      has already seen counts. A request that has ended is not served again. */
  predicate InTime(s: State, id: Id) {
    var kept := id in s.pending || |s.pending| < MAX_PENDING;
    if id !in s.begun then kept || s.closed
    else match s.dispatcher
      case Activated(j) => j == id ==> kept || s.closed
      case Removed(j, hit) => j == id ==> hit || s.closed
      case Deciding(j, value) => j == id ==> value
      case Serving(j) => j == id ==> s.cancel
      case _ => true
  }

  /** The request is served, if at all from now on, with the flag set. */
  ghost predicate Awaited(s: State, id: Id) {
    if id in s.begun then SetForGood(s, id) else id in s.pending || s.closed
  }

  lemma AwaitedStep(s: State, a: Action, id: Id)
    requires Shape(s) && Awaited(s, id) && Enabled(s, a)
    ensures Awaited(Next(s, a), id)
  {
    if id in s.begun {
      SetStep(s, a, id);
    }
  }

  lemma {:induction false} AwaitedStays(s: State, actions: seq<Action>, s': State, id: Id)
    requires Shape(s) && Awaited(s, id) && Reaches(s, actions, s')
    ensures Shape(s') && Awaited(s', id)
    decreases |actions|
  {
    hide Shape, Awaited, Enabled, Next;
    if actions != [] {
      ShapeStep(s, actions[0]);
      AwaitedStep(s, actions[0], id);
      AwaitedStays(Next(s, actions[0]), actions[1..], s', id);
    }
  }

  lemma InTimeIsAwaited(s: State)
    requires Shape(s) && s.reader.Missed?
    ensures InTime(s, s.reader.id) <==> Awaited(Next(s, Insert), s.reader.id)
  {
  }

  /** Steps of the dispatcher until it rests. */
  function ToRest(d: Dispatcher): nat {
    match d
    case Resting => 0
    case Answering(_, _, _) => 1
    case Asked(_, _) => 2
    case Deactivated(_) => 3
    case Serving(_) => 4
    case Deciding(_, _) => 5
    case Removed(_, _) => 6
    case Activated(_) => 7
  }

  function DispatcherStep(d: Dispatcher): Action
    requires !d.Resting?
  {
    match d
    case Activated(_) => Remove
    case Removed(_, _) => AskOnBegin
    case Deciding(_, _) => StoreOnBegin
    case Serving(_) => Deactivate
    case Deactivated(_) => AskOnFinish
    case Asked(_, _) => Load
    case Answering(_, _, _) => StoreOnFinish
  }

  lemma OneDispatcherStep(s: State)
    requires s.reader.Idle? && !s.dispatcher.Resting?
    ensures Enabled(s, DispatcherStep(s.dispatcher))
    ensures
      var s' := Next(s, DispatcherStep(s.dispatcher));
      && s'.reader.Idle? && ToRest(s'.dispatcher) < ToRest(s.dispatcher)
      && s'.begun == s.begun && s'.closed == s.closed && s'.pending <= s.pending
  {
  }

  lemma ReachesCons(s: State, a: Action, more: seq<Action>, s': State)
    requires Enabled(s, a) && Reaches(Next(s, a), more, s')
    ensures Reaches(s, [a] + more, s')
  {
    assert ([a] + more)[1..] == more;
  }

  /** An unannounced request is served with the flag clear once the dispatcher gets to it. */
  lemma {:induction false} ServedUnannounced(s: State, id: Id) returns (actions: seq<Action>, s': State)
    requires s.reader.Idle? && id !in s.begun && id !in s.pending && !s.closed
    ensures Reaches(s, actions, s') && s'.dispatcher == Serving(id) && !s'.cancel
    decreases ToRest(s.dispatcher)
  {
    hide Reaches;
    var a, more;
    if s.dispatcher.Resting? {
      a := Activate(id);
      more, s' := ServedClear(Next(s, a), id);
    } else {
      OneDispatcherStep(s);
      a := DispatcherStep(s.dispatcher);
      more, s' := ServedUnannounced(Next(s, a), id);
    }
    ReachesCons(s, a, more, s');
    actions := [a] + more;
  }

  lemma ServedNow(s: State)
    ensures Reaches(s, [], s)
  {
  }

  lemma {:induction false} ServedTooLate(s: State, id: Id) returns (actions: seq<Action>, s': State)
    requires s.reader.Idle? && !Awaited(s, id)
    ensures Reaches(s, actions, s') && s'.dispatcher == Serving(id) && !s'.cancel
  {
    hide Reaches;
    if id !in s.begun {
      actions, s' := ServedUnannounced(s, id);
    } else if WillClear(s, id) {
      actions, s' := ServedClear(s, id);
    } else {
      actions, s' := [], s;
      ServedNow(s);
    }
  }

  /** When a notice has missed its request and is put into `pending`, the request is served with the
      flag set from then on, in every continuation, if and only if the notice is in time. */
  lemma MissedNoticeReachesRequest(s: State)
    requires Shape(s) && s.reader.Missed?
    ensures
      var id := s.reader.id;
      InTime(s, id) <==>
        forall actions, s' :: Reaches(Next(s, Insert), actions, s') ==> (s'.dispatcher == Serving(id) ==> s'.cancel)
  {
    var id, inserted := s.reader.id, Next(s, Insert);
    InTimeIsAwaited(s);
    ShapeStep(s, Insert);
    assert inserted.reader.Idle?;
    hide Reaches, InTime, Next, Shape;
    if Awaited(inserted, id) {
      forall actions, s' | Reaches(inserted, actions, s')
        ensures s'.dispatcher == Serving(id) ==> s'.cancel
      {
        AwaitedStays(inserted, actions, s', id);
        AwaitedServing(s', id);
      }
    } else {
      var run, served := ServedTooLate(inserted, id);
      assert Reaches(inserted, run, served);
      assert exists actions, s' :: Reaches(inserted, actions, s') && s'.dispatcher == Serving(id) && !s'.cancel;
    }
  }

  lemma AwaitedServing(s: State, id: Id)
    requires Shape(s) && Awaited(s, id)
    ensures s.dispatcher == Serving(id) ==> s.cancel
  {
  }

  // ----- the end of the transport, as `finish` sees it -----

  ghost predicate SawClose(s: State) {
    exists id :: id in s.outcomes && s.outcomes[id].sawClosed
  }

  /** A request that saw the transport closed is not a cancelled one; and between requests the flag is
      set once one of them did, and never before the transport closed. */
  ghost predicate FinishInv(s: State) {
    && (forall id :: id in s.outcomes && s.outcomes[id].sawClosed ==> s.closed && !s.outcomes[id].cancelled)
    && (match s.dispatcher
        case Asked(_, closed) => (closed ==> s.closed) && (SawClose(s) ==> closed)
        case Answering(_, closed, cancelled) => (closed ==> s.closed && !cancelled) && (SawClose(s) ==> closed)
        case Resting => (s.cancel ==> s.closed) && (SawClose(s) ==> s.cancel)
        case _ => true)
  }

  lemma FinishStep(s: State, a: Action)
    requires Shape(s) && FinishInv(s) && Enabled(s, a)
    ensures FinishInv(Next(s, a))
  {
    var s' := Next(s, a);
    assert SawClose(s) ==> s.closed;
    if a.StoreOnFinish? {
      var d := s.dispatcher;
      assert s'.outcomes[d.id] == Outcome(d.cancelled, d.closed);
    } else {
      assert s'.outcomes == s.outcomes;
      assert SawClose(s') ==> SawClose(s);
    }
  }

  lemma {:induction false} FinishInvHolds(s: State, actions: seq<Action>, s': State)
    requires Inv(s) && FinishInv(s) && Reaches(s, actions, s')
    ensures FinishInv(s')
    decreases |actions|
  {
    assert Shape(s);
    hide Inv, FinishInv, Next, Enabled, Shape;
    if actions != [] {
      InvStep(s, actions[0]);
      FinishStep(s, actions[0]);
      FinishInvHolds(Next(s, actions[0]), actions[1..], s');
    }
  }

  /** In every interleaving, a request that saw the transport closed is not reported as cancelled, and
      the transport was closed; between requests a set flag means that it is, and a flag found set stays. */
  lemma ClosedIsNotCancelled(actions: seq<Action>, s: State)
    requires Reaches(INITIAL, actions, s)
    ensures forall id :: id in s.outcomes && s.outcomes[id].sawClosed ==> s.closed && !s.outcomes[id].cancelled
    ensures s.dispatcher.Resting? ==> (s.cancel ==> s.closed) && (SawClose(s) ==> s.cancel)
  {
    InitialInv();
    FinishInvHolds(INITIAL, actions, s);
  }

  /** `finish` has not yet asked for the transport on behalf of the request, or has seen it closed. */
  ghost predicate WillSeeClose(s: State, id: Id) {
    && s.closed
    && (match s.dispatcher
        case Asked(j, closed) => j == id ==> closed
        case Answering(j, closed, cancelled) => j == id ==> closed && !cancelled
        case _ => true)
    && (id in s.outcomes ==> s.outcomes[id] == Outcome(false, true))
  }

  lemma WillSeeCloseStep(s: State, a: Action, id: Id)
    requires FinishesOnce(s) && WillSeeClose(s, id) && Enabled(s, a)
    ensures WillSeeClose(Next(s, a), id)
  {
  }

  lemma {:induction false} WillSeeCloseStays(s: State, actions: seq<Action>, s': State, id: Id)
    requires Inv(s) && WillSeeClose(s, id) && Reaches(s, actions, s')
    ensures WillSeeClose(s', id)
    decreases |actions|
  {
    assert FinishesOnce(s);
    hide Inv, WillSeeClose, Next, Enabled, FinishesOnce;
    if actions != [] {
      InvStep(s, actions[0]);
      WillSeeCloseStep(s, actions[0], id);
      WillSeeCloseStays(Next(s, actions[0]), actions[1..], s', id);
    }
  }

  /** Once the transport is closed, every request that `finish` has not asked for yet ends as not
      cancelled and with the close seen, in every continuation, notices or none. */
  lemma CloseSparesRequests(actions: seq<Action>, s: State, more: seq<Action>, s': State, id: Id)
    requires Reaches(INITIAL, actions, s) && s.closed && id !in s.outcomes
    requires s.dispatcher.Asked? || s.dispatcher.Answering? ==> s.dispatcher.id != id
    requires Reaches(s, more, s') && id in s'.outcomes
    ensures s'.outcomes[id] == Outcome(false, true)
  {
    InitialInv();
    InvHolds(INITIAL, actions, s);
    WillSeeCloseStays(s, more, s', id);
  }

  // ----- one notice, from end to end -----

  /** `notify`, when nothing comes between its steps: a long id is ignored; the notice for the active
      request sets the flag; any other is kept if fewer than 256 are. */
  lemma NoticeHandled(s: State, id: Id)
    requires s.reader.Idle?
    ensures Next(s, Notify(id, false)) == s.(notified := s.notified + {id})
    ensures
      var locked := Next(Next(s, Notify(id, true)), Lock);
      if s.active == Some(id) then
        && locked.reader.Holding?
        && var end := Next(locked, Store);
           end == s.(notified := s.notified + {id}, cancel := true,
                     observed := if s.dispatcher == Serving(id) then s.observed + {id} else s.observed)
      else
        && locked.reader.Missed?
        && var end := Next(locked, Insert);
           && end.pending == (if |s.pending| < 256 then s.pending + {id} else s.pending)
           && end.early == (if |s.pending| < 256 && id !in s.begun then s.early + {id} else s.early)
           && end.reader.Idle? && end.cancel == s.cancel && end.active == s.active && end.dispatcher == s.dispatcher
  {
  }

  // ----- room for notices -----

  /** No notice is put into `pending` after its request has begun. */
  ghost predicate NoneLate(s: State, actions: seq<Action>)
    decreases |actions|
  {
    actions != [] && Enabled(s, actions[0]) ==>
      && (actions[0].Insert? ==> s.reader.id !in s.begun)
      && NoneLate(Next(s, actions[0]), actions[1..])
  }

  /** Notices are kept only for requests that have not begun, or are just beginning. */
  ghost predicate KeptForLater(s: State) {
    forall id :: id in s.pending && id in s.begun ==> s.dispatcher == Activated(id)
  }

  lemma {:induction false} KeptStays(s: State, actions: seq<Action>, s': State)
    requires KeptForLater(s) && NoneLate(s, actions) && Reaches(s, actions, s')
    ensures KeptForLater(s')
    decreases |actions|
  {
    if actions != [] {
      KeptStep(s, actions[0]);
      hide KeptForLater, Next, Enabled;
      KeptStays(Next(s, actions[0]), actions[1..], s');
    }
  }

  lemma KeptStep(s: State, a: Action)
    requires KeptForLater(s) && Enabled(s, a) && (a.Insert? ==> s.reader.id !in s.begun)
    ensures KeptForLater(Next(s, a))
  {
  }

  /** A kept notice gives its room back when its request begins: if none comes too late, `pending` holds only
      notices for requests that have not begun, or whose `begin` is about to take them out. */
  lemma RoomIsGivenBack(actions: seq<Action>, s: State)
    requires Reaches(INITIAL, actions, s) && NoneLate(INITIAL, actions)
    ensures forall id :: id in s.pending && id in s.begun ==> s.dispatcher == Activated(id)
  {
    KeptStays(INITIAL, actions, s);
  }
}
