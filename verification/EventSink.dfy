/** Delivery of turn events: turns, the shutdown sweep and the worker interleave; only the lock of the
    live table makes steps atomic. */
module EventSink {
  type Id = nat

  datatype Kind = Started | Terminal

  /** An event of a turn, and whether the shutdown sweep sends it. */
  datatype Event = Event(turn: Id, kind: Kind, bySweep: bool)

  /** What the holder of the lock is doing with one event: `send` counts it as pending, tries to
      queue it, and takes the count back if the queue is full. */
  datatype Stage = Ready | Counted(event: Event) | Rejected

  datatype Lock = Free | Held(todo: seq<Event>, stage: Stage)

  /** Where a turn's own thread is: it registers at most once and ends at most once, possibly without
      having registered. `registered` says whether the registration came before shutdown; `late`
      whether the end came after. */
  datatype TurnPc = NotStarted | Running(registered: bool) | Ended(registered: bool, late: bool)

  datatype Worker = Waiting | Busy(event: Event) | Done

  datatype State = State(
    slots: nat,
    turns: map<Id, TurnPc>,
    live: set<Id>,
    shut: bool,
    lock: Lock,
    pending: int,
    queue: seq<Event>,
    worker: Worker,
    emitted: seq<Event>,    // every event given to `send`, in order
    accepted: seq<Event>,   // those the queue took
    delivered: seq<Event>)  // those the worker has run

  function Pc(s: State, id: Id): TurnPc {
    if id in s.turns then s.turns[id] else NotStarted
  }

  function Initial(slots: nat): State {
    State(slots, map[], {}, false, Free, 0, [], Waiting, [], [], [])
  }

  datatype Action =
    | Start(id: Id)           // `started`, up to its `send`
    | End(id: Id)             // `finished` or `failed`, up to the `send` in `terminal`
    | Sweep(order: seq<Id>)   // the shutdown sweep drains the live turns in some order
    | Count                   // the lock's holder counts its next event as pending
    | TrySend                 // and tries to queue it
    | Uncount                 // and takes the count back
    | Release
    | Take                    // the worker receives an event
    | Run                     // and runs it
    | Uncharge                // and lowers the count

  ghost predicate Enabled(s: State, a: Action) {
    match a
    case Start(id) => s.lock.Free? && Pc(s, id).NotStarted?
    case End(id) => s.lock.Free? && !Pc(s, id).Ended?
    case Sweep(order) => s.lock.Free? && multiset(order) == multiset(s.live)
    case Count => s.lock.Held? && s.lock.stage.Ready? && s.lock.todo != []
    case TrySend => s.lock.Held? && s.lock.stage.Counted?
    case Uncount => s.lock.Held? && s.lock.stage.Rejected?
    case Release => s.lock == Held([], Ready)
    case Take => s.worker.Waiting? && s.queue != []
    case Run => s.worker.Busy?
    case Uncharge => s.worker.Done?
  }

  function SweepEvents(order: seq<Id>): seq<Event> {
    if order == [] then [] else [Event(order[0], Terminal, true)] + SweepEvents(order[1..])
  }

  predicate Registered(pc: TurnPc) {
    !pc.NotStarted? && pc.registered
  }

  ghost function Next(s: State, a: Action): State
    requires Enabled(s, a)
  {
    match a
    case Start(id) =>
      if s.shut then s.(turns := s.turns[id := Running(false)])
      else s.(turns := s.turns[id := Running(true)], live := s.live + {id},
              lock := Held([Event(id, Started, false)], Ready))
    case End(id) =>
      var ended := s.(turns := s.turns[id := Ended(Registered(Pc(s, id)), s.shut)], live := s.live - {id});
      if s.shut && id !in s.live then ended
      else ended.(lock := Held([Event(id, Terminal, false)], Ready))
    case Sweep(order) => s.(shut := true, live := {}, lock := Held(SweepEvents(order), Ready))
    case Count =>
      s.(pending := s.pending + 1, emitted := s.emitted + [s.lock.todo[0]],
         lock := Held(s.lock.todo[1..], Counted(s.lock.todo[0])))
    case TrySend =>
      if |s.queue| < s.slots then
        s.(queue := s.queue + [s.lock.stage.event], accepted := s.accepted + [s.lock.stage.event],
           lock := s.lock.(stage := Ready))
      else s.(lock := s.lock.(stage := Rejected))
    case Uncount => s.(pending := s.pending - 1, lock := s.lock.(stage := Ready))
    case Release => s.(lock := Free)
    case Take => s.(worker := Busy(s.queue[0]), queue := s.queue[1..])
    case Run => s.(worker := Done, delivered := s.delivered + [s.worker.event])
    case Uncharge => s.(worker := Waiting, pending := s.pending - 1)
  }

  /** The state after a sequence of enabled actions; every interleaving is such a sequence. */
  ghost predicate Reaches(s: State, actions: seq<Action>, s': State)
    decreases |actions|
  {
    if actions == [] then s == s'
    else Enabled(s, actions[0]) && Reaches(Next(s, actions[0]), actions[1..], s')
  }

  // ----- the counter -----

  function InFlight(s: State): int {
    |s.queue| + (if s.worker.Waiting? then 0 else 1) + (if s.lock.Held? && !s.lock.stage.Ready? then 1 else 0)
  }

  function InWorker(s: State): seq<Event> {
    if s.worker.Busy? then [s.worker.event] else []
  }

  /** `pending` counts the events queued, running, or between their count and their fate; accepted
      events are run in order. */
  ghost predicate CounterInv(s: State) {
    && s.pending == InFlight(s)
    && s.accepted == s.delivered + InWorker(s) + s.queue
  }

  lemma CounterStep(s: State, a: Action)
    requires CounterInv(s) && Enabled(s, a)
    ensures CounterInv(Next(s, a))
  {
    hide SweepEvents;
  }

  // ----- what is told of a turn -----

  /** The events of one turn among some events. */
  function EventsOf(events: seq<Event>, id: Id): seq<Event> {
    if events == [] then []
    else (if events[0].turn == id then [events[0]] else []) + EventsOf(events[1..], id)
  }

  lemma {:induction false} EventsOfConcat(x: seq<Event>, y: seq<Event>, id: Id)
    ensures EventsOf(x + y, id) == EventsOf(x, id) + EventsOf(y, id)
    decreases |x|
  {
    if x == [] {
      assert x + y == y;
    } else {
      assert (x + y)[1..] == x[1..] + y;
      EventsOfConcat(x[1..], y, id);
      var first := if x[0].turn == id then [x[0]] else [];
      hide EventsOf;
      assert first + (EventsOf(x[1..], id) + EventsOf(y, id)) == first + EventsOf(x[1..], id) + EventsOf(y, id);
    }
  }

  lemma {:induction false} EventsOfSweep(order: seq<Id>, id: Id)
    requires multiset(order)[id] <= 1
    ensures EventsOf(SweepEvents(order), id) == if id in multiset(order) then [Event(id, Terminal, true)] else []
    decreases |order|
  {
    if order != [] {
      assert order == [order[0]] + order[1..];
      EventsOfSweep(order[1..], id);
    }
  }

  function Todo(s: State): seq<Event> {
    if s.lock.Held? then s.lock.todo else []
  }

  /** Events sent, or to be sent by the lock's holder. */
  function Agenda(s: State): seq<Event> {
    s.emitted + Todo(s)
  }

  /** What is told of a turn, the whole of it: a start if it registered before shutdown; then one terminal
      event when it stops being live, its own or, if it was still live at shutdown, the sweep's; and of a
      turn that ends before shutdown without having registered its own terminal event alone. */
  function Told(id: Id, pc: TurnPc, live: bool): seq<Event> {
    match pc
    case NotStarted => []
    case Running(registered) =>
      if !registered then []
      else if live then [Event(id, Started, false)]
      else [Event(id, Started, false), Event(id, Terminal, true)]
    case Ended(registered, late) =>
      (if registered then [Event(id, Started, false)] else [])
      + (if registered || !late then [Event(id, Terminal, registered && late)] else [])
  }

  /** A turn is live from its registration to its end or the shutdown. */
  predicate LiveOk(pc: TurnPc, live: bool, shut: bool) {
    match pc
    case NotStarted => !live
    case Running(registered) => (registered ==> live == !shut) && (!registered ==> shut && !live)
    case Ended(registered, late) => !live && (late ==> shut)
  }

  ghost predicate TurnInv(s: State, id: Id) {
    && LiveOk(Pc(s, id), id in s.live, s.shut)
    && EventsOf(Agenda(s), id) == Told(id, Pc(s, id), id in s.live)
  }

  /** Once shut down, no turn is live; and what is told of each turn is told in full. */
  ghost predicate Inv(s: State) {
    && CounterInv(s)
    && (s.shut ==> s.live == {})
    && forall id :: TurnInv(s, id)
  }

  lemma InitialInv(slots: nat)
    ensures Inv(Initial(slots)) && OrderInv(Initial(slots))
  {
  }

  lemma OneEvent(e: Event, id: Id)
    ensures EventsOf([e], id) == if e.turn == id then [e] else []
  {
    assert [e][1..] == [];
  }

  /** The events an action puts on the agenda. */
  function NewEvents(s: State, a: Action): seq<Event> {
    match a
    case Start(id) => if s.shut then [] else [Event(id, Started, false)]
    case End(id) => if s.shut && id !in s.live then [] else [Event(id, Terminal, false)]
    case Sweep(order) => SweepEvents(order)
    case _ => []
  }

  lemma CountKeepsAgenda(s: State)
    requires Enabled(s, Count)
    ensures Agenda(Next(s, Count)) == Agenda(s)
  {
    hide SweepEvents;
    var e, rest := s.lock.todo[0], s.lock.todo[1..];
    assert s.lock.todo == [e] + rest;
    assert s.emitted + ([e] + rest) == s.emitted + [e] + rest;
  }

  lemma AgendaStep(s: State, a: Action)
    requires Enabled(s, a)
    ensures Agenda(Next(s, a)) == Agenda(s) + NewEvents(s, a)
  {
    hide SweepEvents;
    if a.Count? {
      CountKeepsAgenda(s);
      hide Next, Agenda;
      assert Agenda(s) + [] == Agenda(s);
    } else if a.Start? || a.End? || a.Sweep? {
      assert Agenda(s) == s.emitted;
    } else {
      assert Todo(Next(s, a)) == Todo(s) && Next(s, a).emitted == s.emitted;
    }
  }

  /** Events of a turn that an action puts on the agenda, `live` telling whether it is live. */
  function NewsOf(a: Action, id: Id, live: bool, shut: bool): seq<Event> {
    match a
    case Start(turn) => if turn == id && !shut then [Event(id, Started, false)] else []
    case End(turn) => if turn == id && (live || !shut) then [Event(id, Terminal, false)] else []
    case Sweep(order) => if live then [Event(id, Terminal, true)] else []
    case _ => []
  }

  lemma EventsOfNew(s: State, a: Action, id: Id)
    requires Enabled(s, a)
    ensures EventsOf(NewEvents(s, a), id) == NewsOf(a, id, id in s.live, s.shut)
  {
    hide EventsOf, SweepEvents;
    NoEvents(id);
    match a
    case Start(turn) => OneEvent(Event(turn, Started, false), id);
    case End(turn) => OneEvent(Event(turn, Terminal, false), id);
    case Sweep(order) => EventsOfSweep(order, id);
    case _ =>
  }

  lemma AgendaOfTurn(s: State, a: Action, id: Id)
    requires Enabled(s, a)
    ensures EventsOf(Agenda(Next(s, a)), id) == EventsOf(Agenda(s), id) + NewsOf(a, id, id in s.live, s.shut)
  {
    AgendaStep(s, a);
    EventsOfConcat(Agenda(s), NewEvents(s, a), id);
    EventsOfNew(s, a, id);
    hide *;
  }

  /** What an action does to one turn. */
  function PcAfter(a: Action, id: Id, pc: TurnPc, shut: bool): TurnPc {
    match a
    case Start(turn) => if turn == id then Running(!shut) else pc
    case End(turn) => if turn == id then Ended(Registered(pc), shut) else pc
    case _ => pc
  }

  predicate LiveAfter(a: Action, id: Id, live: bool, shut: bool) {
    match a
    case Start(turn) => if turn == id && !shut then true else live
    case End(turn) => turn != id && live
    case Sweep(_) => false
    case _ => live
  }

  lemma TurnStep(s: State, a: Action, id: Id)
    requires Enabled(s, a)
    ensures Pc(Next(s, a), id) == PcAfter(a, id, Pc(s, id), s.shut)
    ensures id in Next(s, a).live <==> LiveAfter(a, id, id in s.live, s.shut)
    ensures Next(s, a).shut == (s.shut || a.Sweep?)
  {
    hide SweepEvents;
  }

  lemma TurnOkStep(a: Action, id: Id, pc: TurnPc, live: bool, shut: bool)
    requires LiveOk(pc, live, shut)
    requires (a == Start(id) ==> pc.NotStarted?) && (a == End(id) ==> !pc.Ended?)
    ensures LiveOk(PcAfter(a, id, pc, shut), LiveAfter(a, id, live, shut), shut || a.Sweep?)
    ensures Told(id, pc, live) + NewsOf(a, id, live, shut) == Told(id, PcAfter(a, id, pc, shut), LiveAfter(a, id, live, shut))
  {
  }

  lemma LiveStep(s: State, a: Action)
    requires Enabled(s, a) && (s.shut ==> s.live == {})
    ensures Next(s, a).shut ==> Next(s, a).live == {}
  {
    hide SweepEvents;
  }

  lemma TurnInvStep(s: State, a: Action, id: Id)
    requires Enabled(s, a) && TurnInv(s, id)
    ensures TurnInv(Next(s, a), id)
  {
    AgendaOfTurn(s, a, id);
    TurnStep(s, a, id);
    hide Next, LiveOk, Told, PcAfter, LiveAfter, NewsOf, Agenda, EventsOf;
    TurnOkStep(a, id, Pc(s, id), id in s.live, s.shut);
  }

  lemma NoEvents(id: Id)
    ensures EventsOf([], id) == []
  {
  }

  lemma InvStep(s: State, a: Action)
    requires Inv(s) && Enabled(s, a)
    ensures Inv(Next(s, a))
  {
    hide TurnInv, CounterInv, Enabled, Next;
    CounterStep(s, a);
    LiveStep(s, a);
    forall id
      ensures TurnInv(Next(s, a), id)
    {
      TurnInvStep(s, a, id);
    }
  }

  /** Accepted events are emitted events in the same order: the queue only drops, never reorders. */
  ghost predicate Subsequence(x: seq<Event>, y: seq<Event>) {
    x != [] ==>
      && y != []
      && ((x[|x| - 1] == y[|y| - 1] && Subsequence(x[..|x| - 1], y[..|y| - 1])) || Subsequence(x, y[..|y| - 1]))
  }

  /** The event between its count and its fate, if any. */
  function Undecided(s: State): seq<Event> {
    if s.lock.Held? && s.lock.stage.Counted? then [s.lock.stage.event] else []
  }

  /** Accepted events come in order, and before an undecided one, which is the last one emitted. */
  ghost predicate InOrder(accepted: seq<Event>, undecided: seq<Event>, emitted: seq<Event>) {
    |undecided| <= |emitted|
    && undecided == emitted[|emitted| - |undecided|..]
    && Subsequence(accepted, emitted[..|emitted| - |undecided|])
  }

  ghost predicate OrderInv(s: State) {
    InOrder(s.accepted, Undecided(s), s.emitted)
  }

  /** A step either leaves the order alone, or emits an event that is then undecided, or decides it. */
  lemma OrderEffect(s: State, a: Action)
    requires Enabled(s, a)
    ensures
      var s' := Next(s, a);
      match a
      case Count =>
        && Undecided(s) == [] && Undecided(s') == [s.lock.todo[0]]
        && s'.emitted == s.emitted + [s.lock.todo[0]] && s'.accepted == s.accepted
      case TrySend =>
        && Undecided(s) == [s.lock.stage.event] && Undecided(s') == [] && s'.emitted == s.emitted
        && (s'.accepted == s.accepted || s'.accepted == s.accepted + [s.lock.stage.event])
      case _ => Undecided(s') == Undecided(s) && s'.emitted == s.emitted && s'.accepted == s.accepted
  {
    hide SweepEvents;
  }

  lemma CountKeepsOrder(accepted: seq<Event>, emitted: seq<Event>, e: Event)
    requires InOrder(accepted, [], emitted)
    ensures InOrder(accepted, [e], emitted + [e])
  {
    hide Subsequence;
    assert (emitted + [e])[..|emitted|] == emitted == emitted[..|emitted|];
  }

  lemma SendKeepsOrder(accepted: seq<Event>, emitted: seq<Event>, e: Event)
    requires InOrder(accepted, [e], emitted)
    ensures InOrder(accepted + [e], [], emitted) && InOrder(accepted, [], emitted)
  {
    hide Subsequence;
    var before := emitted[..|emitted| - 1];
    assert emitted == before + [e] == emitted[..|emitted|];
    TakeOne(accepted, before, e);
    SkipOne(accepted, before, e);
  }

  lemma AcceptedInOrder(accepted: seq<Event>, undecided: seq<Event>, emitted: seq<Event>)
    requires InOrder(accepted, undecided, emitted) && |undecided| <= 1
    ensures Subsequence(accepted, emitted)
  {
    hide Subsequence;
    if undecided == [] {
      assert emitted == emitted[..|emitted|];
    } else {
      SendKeepsOrder(accepted, emitted, undecided[0]);
      assert undecided == [undecided[0]] && emitted == emitted[..|emitted|];
    }
  }

  lemma SkipOne(x: seq<Event>, y: seq<Event>, e: Event)
    requires Subsequence(x, y)
    ensures Subsequence(x, y + [e])
  {
    assert (y + [e])[..|y|] == y;
  }

  lemma TakeOne(x: seq<Event>, y: seq<Event>, e: Event)
    requires Subsequence(x, y)
    ensures Subsequence(x + [e], y + [e])
  {
    assert (y + [e])[..|y|] == y && (x + [e])[..|x|] == x;
  }

  lemma {:induction false} InvKept(s: State, actions: seq<Action>, s': State)
    requires Inv(s) && OrderInv(s) && Reaches(s, actions, s')
    ensures Inv(s') && OrderInv(s')
    decreases |actions|
  {
    hide Inv, InOrder, Next, Undecided;
    if actions != [] {
      var a := actions[0];
      InvStep(s, a);
      OrderEffect(s, a);
      if a.Count? {
        CountKeepsOrder(s.accepted, s.emitted, s.lock.todo[0]);
      } else if a.TrySend? {
        SendKeepsOrder(s.accepted, s.emitted, s.lock.stage.event);
      }
      InvKept(Next(s, actions[0]), actions[1..], s');
    }
  }

  /** The invariants hold in every reachable state of every interleaving. */
  lemma InvHolds(slots: nat, actions: seq<Action>, s: State)
    requires Reaches(Initial(slots), actions, s)
    ensures Inv(s) && OrderInv(s)
  {
    InitialInv(slots);
    InvKept(Initial(slots), actions, s);
  }

  /** Terminal events of a turn among some events. */
  function Claims(events: seq<Event>, id: Id): nat {
    if events == [] then 0
    else (if events[0].turn == id && events[0].kind.Terminal? then 1 else 0) + Claims(events[1..], id)
  }

  lemma {:induction false} ClaimsAmongOwn(events: seq<Event>, id: Id)
    ensures Claims(events, id) == Claims(EventsOf(events, id), id)
    decreases |events|
  {
    if events != [] {
      ClaimsAmongOwn(events[1..], id);
      var rest := EventsOf(events[1..], id);
      assert ([events[0]] + rest)[1..] == rest && [] + rest == rest;
    }
  }

  /** The turn was registered, or ended, before shutdown. */
  predicate Due(s: State, id: Id) {
    match Pc(s, id)
    case NotStarted => false
    case Running(registered) => registered
    case Ended(registered, late) => registered || !late
  }

  lemma ToldClaims(id: Id, pc: TurnPc, live: bool)
    requires pc.Ended? ==> !live
    ensures Claims(Told(id, pc, live), id) ==
      match pc
      case NotStarted => 0
      case Running(registered) => if registered && !live then 1 else 0
      case Ended(registered, late) => if registered || !late then 1 else 0
  {
    var started, ended, swept := Event(id, Started, false), Event(id, Terminal, false), Event(id, Terminal, true);
    TwoClaims(started, ended, id);
    TwoClaims(started, swept, id);
    hide Claims;
    assert [started] + [ended] == [started, ended] && [started] + [swept] == [started, swept];
    var none: seq<Event> := [];
    assert none + none == none && none + [ended] == [ended] && [started] + none == [started];
    match pc
    case Ended(true, late) =>
      assert Told(id, pc, live) == [started, if late then swept else ended];
    case _ =>
  }

  lemma TwoClaims(d: Event, e: Event, id: Id)
    ensures Claims([], id) == 0
    ensures Claims([e], id) == if e.turn == id && e.kind.Terminal? then 1 else 0
    ensures Claims([d], id) == if d.turn == id && d.kind.Terminal? then 1 else 0
    ensures Claims([d, e], id) == Claims([d], id) + Claims([e], id)
  {
    assert [d][1..] == [] && [e][1..] == [] && [d, e][1..] == [e];
  }

  /** A beginning of what is told claims no more than the whole. */
  lemma {:induction false} ClaimsOfPart(x: seq<Event>, y: seq<Event>, id: Id)
    ensures Claims(x, id) <= Claims(x + y, id)
    decreases |x|
  {
    if x != [] {
      assert (x + y)[1..] == x[1..] + y;
      ClaimsOfPart(x[1..], y, id);
    }
  }

  lemma ClaimsOf(s: State, id: Id)
    requires Inv(s)
    ensures Claims(s.emitted, id) <= 1
    ensures s.lock.Free? || Todo(s) == [] ==>
      && EventsOf(s.emitted, id) == Told(id, Pc(s, id), id in s.live)
      && Claims(s.emitted, id) == (if Due(s, id) && id !in s.live then 1 else 0)
    ensures Pc(s, id).Ended? ==> id !in s.live
  {
    assert TurnInv(s, id);
    hide Claims, Inv, CounterInv, EventsOf, Told;
    ClaimsOfPart(s.emitted, Todo(s), id);
    ClaimsAmongOwn(Agenda(s), id);
    ToldClaims(id, Pc(s, id), id in s.live);
    if s.lock.Free? || Todo(s) == [] {
      assert Agenda(s) == s.emitted;
    }
  }

  /** In every interleaving what has been emitted of a turn, whenever the lock is free, is a start if it was
      registered before shutdown, and after it one terminal event once it is no longer live: its own, or
      the sweep's if it was live at shutdown. So its terminal event is claimed exactly once, if it was
      registered or ended before shutdown; other turns claim none. */
  lemma ClaimedExactlyOnce(slots: nat, actions: seq<Action>, s: State, id: Id)
    requires Reaches(Initial(slots), actions, s)
    ensures Claims(s.emitted, id) <= 1
    ensures s.lock.Free? ==>
      && EventsOf(s.emitted, id) == Told(id, Pc(s, id), id in s.live)
      && Claims(s.emitted, id) == (if Due(s, id) && id !in s.live then 1 else 0)
    ensures Pc(s, id).Ended? ==> id !in s.live
  {
    hide *;
    InvHolds(slots, actions, s);
    ClaimsOf(s, id);
  }

  /** The sweep is over: its critical section has ended, or has nothing left to send. */
  predicate Swept(s: State) {
    s.shut && s.live == {} && Todo(s) == [] && (s.lock.Held? ==> s.lock.stage.Ready?)
  }

  lemma SweptStep(s: State, a: Action)
    requires Swept(s) && Enabled(s, a)
    ensures Swept(Next(s, a)) && Next(s, a).emitted == s.emitted && Next(s, a).accepted == s.accepted
  {
    match a
    case Sweep(order) =>
      assert |multiset(order)| == 0;
    case _ =>
  }

  /** Nothing is emitted, and nothing more accepted, after the sweep. */
  lemma {:induction false} NothingAfterSweep(s: State, actions: seq<Action>, s': State)
    requires Swept(s) && Reaches(s, actions, s')
    ensures Swept(s') && s'.emitted == s.emitted && s'.accepted == s.accepted
    decreases |actions|
  {
    hide Swept;
    if actions != [] {
      SweptStep(s, actions[0]);
      NothingAfterSweep(Next(s, actions[0]), actions[1..], s');
    }
  }

  /** When the sweep is over and the drain reads a count of zero, every accepted event has been run,
      in the order of acceptance; the terminal event of every turn that was registered or ended before
      shutdown has been claimed exactly once, and no other's, whatever happens later. */
  lemma DrainedAtZero(slots: nat, actions: seq<Action>, s: State, more: seq<Action>, s': State)
    requires Reaches(Initial(slots), actions, s) && Swept(s) && s.pending == 0
    requires Reaches(s, more, s')
    ensures s.delivered == s.accepted
    ensures s'.accepted == s.accepted && s'.delivered == s.delivered
    ensures forall id :: Claims(s'.emitted, id) == if Due(s', id) then 1 else 0
    ensures forall id :: EventsOf(s'.emitted, id) == Told(id, Pc(s', id), false)
  {
    hide *;
    InvHolds(slots, actions, s);
    InvKept(s, more, s');
    NothingAfterSweep(s, more, s');
    AllRunAtZero(s);
    DeliveredGrows(s, more, s');
    DeliveredWithinAccepted(s');
    SweptState(s');
    forall id
      ensures Claims(s'.emitted, id) == if Due(s', id) then 1 else 0
      ensures EventsOf(s'.emitted, id) == Told(id, Pc(s', id), false)
    {
      ClaimsOf(s', id);
    }
  }

  lemma AllRunAtZero(s: State)
    requires Inv(s) && s.pending == 0
    ensures s.delivered == s.accepted
  {
    hide TurnInv;
    assert s.queue == [] && s.worker.Waiting?;
  }

  lemma SweptState(s: State)
    requires Swept(s)
    ensures s.live == {} && Todo(s) == []
  {
  }

  lemma DeliveredWithinAccepted(s: State)
    requires Inv(s)
    ensures s.delivered <= s.accepted
  {
  }

  lemma {:induction false} DeliveredGrows(s: State, actions: seq<Action>, s': State)
    requires Reaches(s, actions, s')
    ensures s.delivered <= s'.delivered
    decreases |actions|
  {
    if actions != [] {
      DeliveredGrows(Next(s, actions[0]), actions[1..], s');
    }
  }

  /** In every interleaving events are run in the order in which they were emitted. */
  lemma DeliveredInEmissionOrder(slots: nat, actions: seq<Action>, s: State)
    requires Reaches(Initial(slots), actions, s)
    ensures s.delivered <= s.accepted && Subsequence(s.accepted, s.emitted)
  {
    InvHolds(slots, actions, s);
    AcceptedInOrder(s.accepted, Undecided(s), s.emitted);
  }

  // ----- what is dropped -----

  /** From one state on, every event emitted has been accepted, or is about to be tried with room left. */
  ghost predicate NoneDropped(s: State, s': State) {
    && s'.slots == s.slots && |s.emitted| <= |s'.emitted|
    && !(s'.lock.Held? && s'.lock.stage.Rejected?)
    && |s'.queue| + |Undecided(s')| <= |s.queue| + |Undecided(s)| + |s'.emitted| - |s.emitted|
    && s'.accepted + Undecided(s') == s.accepted + Undecided(s) + s'.emitted[|s.emitted|..]
  }

  lemma NoneDroppedStep(s: State, s': State, a: Action)
    requires NoneDropped(s, s') && Enabled(s', a)
    requires |s.queue| + |Undecided(s)| + |Next(s', a).emitted| - |s.emitted| <= s.slots
    ensures NoneDropped(s, Next(s', a))
  {
    hide SweepEvents;
    var before, n := s.accepted + Undecided(s), |s.emitted|;
    if a.Count? {
      var e := s'.lock.todo[0];
      assert (s'.emitted + [e])[n..] == s'.emitted[n..] + [e];
      assert s'.accepted + [] == s'.accepted;
      assert before + s'.emitted[n..] + [e] == before + (s'.emitted[n..] + [e]);
    } else if a.TrySend? {
      assert |s'.queue| < s'.slots;
      assert s'.accepted + [s'.lock.stage.event] + [] == s'.accepted + [s'.lock.stage.event];
    }
  }

  lemma EmittedGrows(s: State, a: Action)
    requires Enabled(s, a)
    ensures s.emitted <= Next(s, a).emitted
  {
    hide SweepEvents;
  }

  lemma {:induction false} EmittedKept(s: State, actions: seq<Action>, s': State)
    requires Reaches(s, actions, s')
    ensures s.emitted <= s'.emitted
    decreases |actions|
  {
    hide Next, Enabled;
    if actions != [] {
      EmittedGrows(s, actions[0]);
      EmittedKept(Next(s, actions[0]), actions[1..], s');
    }
  }

  lemma {:induction false} NoneDroppedOn(s: State, s': State, actions: seq<Action>, s'': State)
    requires NoneDropped(s, s') && Reaches(s', actions, s'')
    requires |s.queue| + |Undecided(s)| + |s''.emitted| - |s.emitted| <= s.slots
    ensures NoneDropped(s, s'')
    decreases |actions|
  {
    hide Next, Enabled, NoneDropped;
    if actions != [] {
      EmittedKept(Next(s', actions[0]), actions[1..], s'');
      NoneDroppedStep(s, s', actions[0]);
      NoneDroppedOn(s, Next(s', actions[0]), actions[1..], s'');
    }
  }

  /** In every interleaving, from any state that is not just dropping an event: as long as what the queue
      holds and what is emitted fit into it together, whatever the worker takes meanwhile, every event
      emitted is accepted, but for the last while it is being sent. */
  lemma NothingDroppedWithRoom(s: State, actions: seq<Action>, s': State)
    requires Reaches(s, actions, s') && !(s.lock.Held? && s.lock.stage.Rejected?)
    requires |s.queue| + |Undecided(s)| + |s'.emitted| - |s.emitted| <= s.slots
    ensures |s.emitted| <= |s'.emitted|
    ensures s'.accepted + Undecided(s') == s.accepted + Undecided(s) + s'.emitted[|s.emitted|..]
  {
    assert NoneDropped(s, s);
    NoneDroppedOn(s, s, actions, s');
  }

  /** The queue never holds more than its slots. */
  lemma {:induction false} QueueWithinSlots(slots: nat, s: State, actions: seq<Action>, s': State)
    requires s.slots == slots && |s.queue| <= slots && Reaches(s, actions, s')
    ensures s'.slots == slots && |s'.queue| <= slots
    decreases |actions|
  {
    hide SweepEvents;
    if actions != [] {
      QueueWithinSlots(slots, Next(s, actions[0]), actions[1..], s');
    }
  }

  // ----- the drain can finish -----

  lemma {:induction false} OneMore(s: State, actions: seq<Action>, s': State, a: Action)
    requires Reaches(s, actions, s') && Enabled(s', a)
    ensures Reaches(s, actions + [a], Next(s', a))
    decreases |actions|
  {
    hide Next, Enabled;
    if actions == [] {
      assert actions + [a] == [a] && [a][1..] == [];
    } else {
      assert (actions + [a])[1..] == actions[1..] + [a];
      OneMore(Next(s, actions[0]), actions[1..], s', a);
    }
  }

  lemma {:induction false} AndThen(s: State, x: seq<Action>, s': State, y: seq<Action>, s'': State)
    requires Reaches(s, x, s') && Reaches(s', y, s'')
    ensures Reaches(s, x + y, s'')
    decreases |x|
  {
    hide Next, Enabled;
    if x == [] {
      assert x + y == y;
    } else {
      assert (x + y)[1..] == x[1..] + y;
      AndThen(Next(s, x[0]), x[1..], s', y, s'');
    }
  }

  lemma Step(s: State, a: Action) returns (actions: seq<Action>, s': State)
    requires Enabled(s, a)
    ensures actions == [a] && s' == Next(s, a) && Reaches(s, actions, s')
  {
    hide Next, Enabled;
    actions, s' := [a], Next(s, a);
    assert [a][1..] == [];
  }

  /** The holder of the lock can always send what it has to send and let go. */
  lemma {:induction false} LockCanBeReleased(s: State) returns (actions: seq<Action>, s': State)
    ensures Reaches(s, actions, s') && s'.lock.Free? && s'.shut == s.shut && s'.live == s.live && s'.turns == s.turns
    decreases if s.lock.Held? then |s.lock.todo| else 0, if s.lock.Free? then 0 else
      match s.lock.stage case Ready => 1 case Rejected => 2 case Counted(_) => 3
  {
    actions, s' := [], s;
    if s.lock.Held? {
      var a := match s.lock.stage
        case Ready => if s.lock.todo == [] then Release else Count
        case Counted(_) => TrySend
        case Rejected => Uncount;
      var first, t := Step(s, a);
      hide SweepEvents, Reaches;
      var more;
      more, s' := LockCanBeReleased(t);
      AndThen(s, first, t, more, s');
      actions := first + more;
    }
  }

  /** A turn that has not started can always start, and one that has not ended can always end. */
  lemma TurnCanGoOn(s: State, id: Id) returns (starting: seq<Action>, started: State, ending: seq<Action>, ended: State)
    ensures Pc(s, id).NotStarted? ==> Reaches(s, starting, started) && Pc(started, id) == Running(!s.shut)
    ensures !Pc(s, id).Ended? ==> Reaches(s, ending, ended) && Pc(ended, id) == Ended(Registered(Pc(s, id)), s.shut)
  {
    starting, started, ending, ended := [], s, [], s;
    var toFree, free := LockCanBeReleased(s);
    if Pc(s, id).NotStarted? {
      var more;
      more, started := Step(free, Start(id));
      AndThen(s, toFree, free, more, started);
      starting := toFree + more;
    }
    if !Pc(s, id).Ended? {
      var more;
      more, ended := Step(free, End(id));
      AndThen(s, toFree, free, more, ended);
      ending := toFree + more;
    }
  }

  /** The worker can always run what is queued. */
  lemma {:induction false} QueueCanBeRun(s: State) returns (actions: seq<Action>, s': State)
    ensures Reaches(s, actions, s') && s'.queue == [] && s'.worker.Waiting?
    ensures s'.lock == s.lock && s'.shut == s.shut && s'.live == s.live
    decreases |s.queue|, match s.worker case Waiting => 0 case Done => 1 case Busy(_) => 2
  {
    actions, s' := [], s;
    if s.queue != [] || !s.worker.Waiting? {
      var a := match s.worker case Waiting => Take case Busy(_) => Run case Done => Uncharge;
      var first, t := Step(s, a);
      hide SweepEvents, Reaches;
      var more;
      more, s' := QueueCanBeRun(t);
      AndThen(s, first, t, more, s');
      actions := first + more;
    }
  }

  lemma {:induction false} OrderOf(ids: set<Id>) returns (order: seq<Id>)
    ensures multiset(order) == multiset(ids)
    decreases |ids|
  {
    if ids == {} {
      order := [];
    } else {
      var id :| id in ids;
      order := OrderOf(ids - {id});
      order := order + [id];
      assert multiset(ids) == multiset(ids - {id}) + multiset{id};
    }
  }

  lemma NothingInFlight(s: State)
    requires Inv(s) && s.queue == [] && s.worker.Waiting? && s.lock.Free?
    ensures s.pending == 0
  {
    hide TurnInv;
  }

  /** From every state, shutting down and draining can be finished: the sweep can take the lock, send for every
      live turn and let go, and the worker can run all that was accepted, so that the drain reads zero. */
  lemma DrainCanFinish(slots: nat, before: seq<Action>, s: State) returns (actions: seq<Action>, s': State)
    requires Reaches(Initial(slots), before, s)
    ensures Reaches(s, actions, s') && Swept(s') && s'.pending == 0
  {
    var toFree, free := LockCanBeReleased(s);
    var order := OrderOf(free.live);
    var sweep, sweeping := Step(free, Sweep(order));
    var toSwept, swept := LockCanBeReleased(sweeping);
    var toDrained, drained := QueueCanBeRun(swept);
    hide Next, Enabled, Reaches, SweepEvents;
    AndThen(sweeping, toSwept, swept, toDrained, drained);
    AndThen(free, sweep, sweeping, toSwept + toDrained, drained);
    AndThen(s, toFree, free, sweep + (toSwept + toDrained), drained);
    actions, s' := toFree + (sweep + (toSwept + toDrained)), drained;
    InvHolds(slots, before, s);
    InvKept(s, actions, s');
    NothingInFlight(s');
  }
}
