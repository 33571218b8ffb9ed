/** Deadline handlers and timers: a list sorted by deadline, served in that order, changed by the handlers it calls. */
module Deadlines {
  import opened Arithmetic
  import opened Options
  import LinkedLists

  /** A handler waiting for its deadline; `serial` numbers the registrations. */
  datatype Registration = Registration(handler: nat, deadline: nat, serial: nat)

  /** A handler was called at time `at` for the deadline of a registration. */
  datatype Firing = Firing(registration: Registration, at: nat)

  /** `periods` holds the periodic timers; `log` is the history of calls. */
  datatype State = State(queue: seq<Registration>, periods: map<nat, nat>, registrations: nat, log: seq<Firing>)

  function Initial(): State { State([], map[], 0, []) }

  datatype Command =
    | StartOneShot(handler: nat, deadline: nat)
    | StartPeriodic(handler: nat, period: nat, now: nat)
    | Stop(handler: nat)

  // ----- The sorted list -----

  function IsOf(handler: nat): Registration -> bool { (q: Registration) => q.handler == handler }

  function IsLaterThan(deadline: nat): Registration -> bool { (q: Registration) => q.deadline > deadline }

  function Without(queue: seq<Registration>, handler: nat): seq<Registration>
  {
    LinkedLists.WithoutFirst(queue, IsOf(handler))
  }

  function Inserted(queue: seq<Registration>, r: Registration): seq<Registration>
  {
    LinkedLists.InsertedBefore(queue, r, IsLaterThan(r.deadline))
  }

  /** Different handlers, served by deadline, first come first served among equal ones. */
  predicate IsServedBefore(a: Registration, b: Registration)
  {
    && a.handler != b.handler && a.serial != b.serial
    && (a.deadline < b.deadline || (a.deadline == b.deadline && a.serial < b.serial))
  }

  ghost predicate IsSorted(queue: seq<Registration>)
  {
    forall i, j | 0 <= i < j < |queue| :: IsServedBefore(queue[i], queue[j])
  }

  lemma SortedTail(queue: seq<Registration>)
    requires IsSorted(queue) && queue != []
    ensures IsSorted(queue[1..]) && forall r | r in queue[1..] :: IsServedBefore(queue[0], r)
  {
    hide IsServedBefore;
  }

  lemma SortedCons(r: Registration, queue: seq<Registration>)
    requires IsSorted(queue) && forall q | q in queue :: IsServedBefore(r, q)
    ensures IsSorted([r] + queue)
  {
    hide IsServedBefore;
  }

  ghost predicate AreOlder(queue: seq<Registration>, serial: nat)
  {
    forall r | r in queue :: r.serial < serial
  }

  lemma {:induction false} WithoutKeeps(queue: seq<Registration>, handler: nat)
    requires IsSorted(queue)
    ensures IsSorted(Without(queue, handler))
    ensures forall r :: r in Without(queue, handler) <==> r in queue && r.handler != handler
  {
    hide IsSorted;
    if queue != [] {
      var rest := queue[1..];
      SortedTail(queue);
      assert queue == [queue[0]] + rest;
      if queue[0].handler != handler {
        WithoutKeeps(rest, handler);
        SortedCons(queue[0], Without(rest, handler));
      }
    }
  }

  lemma {:induction false} InsertedKeeps(queue: seq<Registration>, r: Registration)
    requires IsSorted(queue) && AreOlder(queue, r.serial)
    requires forall q | q in queue :: q.handler != r.handler
    ensures IsSorted(Inserted(queue, r))
    ensures forall q :: q in Inserted(queue, r) <==> q in queue || q == r
  {
    hide IsSorted;
    if queue == [] {
      SortedCons(r, []);
    } else {
      var rest := queue[1..];
      SortedTail(queue);
      assert queue == [queue[0]] + rest;
      if queue[0].deadline > r.deadline {
        SortedCons(r, queue);
      } else {
        InsertedKeeps(rest, r);
        SortedCons(queue[0], Inserted(rest, r));
      }
    }
  }

  // ----- Steps -----

  /** Registering replaces an earlier registration of the same handler. */
  function Register(s: State, handler: nat, deadline: nat): State
  {
    var r := Registration(handler, deadline, s.registrations);
    s.(queue := Inserted(Without(s.queue, handler), r), registrations := s.registrations + 1)
  }

  function Execute(s: State, c: Command): State
  {
    match c
    case StartOneShot(handler, deadline) => Register(s.(periods := s.periods - {handler}), handler, deadline)
    case StartPeriodic(handler, period, now) =>
      Register(s.(periods := s.periods[handler := period]), handler, now + period)
    case Stop(handler) => s.(queue := Without(s.queue, handler))
  }

  function ExecuteAll(s: State, commands: seq<Command>): State
    decreases |commands|
  {
    if commands == [] then s else ExecuteAll(Execute(s, commands[0]), commands[1..])
  }

  predicate IsDue(s: State, now: nat) { s.queue != [] && s.queue[0].deadline <= now }

  /** The first handler is taken off the list and called; a periodic timer is on it again by then. */
  function Fire(s: State, now: nat): State
    requires IsDue(s, now)
  {
    var r := s.queue[0];
    var t := s.(queue := s.queue[1..], log := s.log + [Firing(r, now)]);
    if r.handler in s.periods then Register(t, r.handler, r.deadline + s.periods[r.handler]) else t
  }

  /** One turn of polling at time `now`; `commands` is what the handler does if it is called. */
  datatype Turn = Turn(now: nat, commands: seq<Command>)

  function TakeTurn(s: State, turn: Turn): State
  {
    if IsDue(s, turn.now) then ExecuteAll(Fire(s, turn.now), turn.commands) else s
  }

  // ----- What every step keeps -----

  /** No registration is served twice, nor early. */
  ghost predicate IsFaithful(s: State)
  {
    && (forall f | f in s.log :: f.registration.serial < s.registrations && f.registration.deadline <= f.at)
    && (forall i, j | 0 <= i < j < |s.log| :: s.log[i].registration.serial != s.log[j].registration.serial)
    && (forall f, r | f in s.log && r in s.queue :: f.registration.serial != r.serial)
  }

  ghost predicate Inv(s: State)
  {
    IsSorted(s.queue) && AreOlder(s.queue, s.registrations) && IsFaithful(s)
  }

  lemma RegisterKeeps(s: State, handler: nat, deadline: nat)
    requires Inv(s)
    ensures Inv(Register(s, handler, deadline))
  {
    hide IsSorted;
    var r := Registration(handler, deadline, s.registrations);
    WithoutKeeps(s.queue, handler);
    InsertedKeeps(Without(s.queue, handler), r);
  }

  lemma ExecuteKeeps(s: State, c: Command)
    requires Inv(s)
    ensures Inv(Execute(s, c))
  {
    hide IsSorted;
    match c
    case StartOneShot(handler, deadline) => RegisterKeeps(s.(periods := s.periods - {handler}), handler, deadline);
    case StartPeriodic(handler, period, now) =>
      RegisterKeeps(s.(periods := s.periods[handler := period]), handler, now + period);
    case Stop(handler) => WithoutKeeps(s.queue, handler);
  }

  lemma {:induction false} ExecuteAllKeeps(s: State, commands: seq<Command>)
    requires Inv(s)
    ensures Inv(ExecuteAll(s, commands))
    decreases |commands|
  {
    hide Inv, Execute;
    if commands != [] {
      ExecuteKeeps(s, commands[0]);
      ExecuteAllKeeps(Execute(s, commands[0]), commands[1..]);
    }
  }

  lemma TakenOffKeeps(s: State, now: nat)
    requires Inv(s) && IsDue(s, now)
    ensures Inv(s.(queue := s.queue[1..], log := s.log + [Firing(s.queue[0], now)]))
  {
    hide IsSorted;
    SortedTail(s.queue);
    assert s.queue == [s.queue[0]] + s.queue[1..];
  }

  lemma FireKeeps(s: State, now: nat)
    requires Inv(s) && IsDue(s, now)
    ensures Inv(Fire(s, now))
  {
    var r := s.queue[0];
    var t := s.(queue := s.queue[1..], log := s.log + [Firing(r, now)]);
    hide Inv;
    TakenOffKeeps(s, now);
    if r.handler in s.periods {
      RegisterKeeps(t, r.handler, r.deadline + s.periods[r.handler]);
    }
  }

  lemma TurnKeeps(s: State, turn: Turn)
    requires Inv(s)
    ensures Inv(TakeTurn(s, turn))
  {
    hide Inv, Fire;
    if IsDue(s, turn.now) {
      FireKeeps(s, turn.now);
      ExecuteAllKeeps(Fire(s, turn.now), turn.commands);
    }
  }

  // ----- Polling -----

  /** Turns until nothing is due; `None` as time if that is still to come when the turns end. */
  datatype Polled = Polled(state: State, time: Option<nat>)

  function Poll(s: State, turns: seq<Turn>): Polled
    decreases |turns|
  {
    if turns == [] then Polled(s, None)
    else if !IsDue(s, turns[0].now) then Polled(s, Some(turns[0].now))
    else Poll(TakeTurn(s, turns[0]), turns[1..])
  }

  /**
    * Whatever the handlers do, order and history stay in place, and polling ends only with every deadline in the
    * future.
    */
  lemma {:induction false} PollServesAll(s: State, turns: seq<Turn>)
    requires Inv(s)
    ensures
      var p := Poll(s, turns);
      Inv(p.state) && (p.time.Some? ==> forall r | r in p.state.queue :: r.deadline > p.time.value)
    decreases |turns|
  {
    if turns != [] {
      if IsDue(s, turns[0].now) {
        TurnKeeps(s, turns[0]);
        hide Inv, TakeTurn;
        PollServesAll(TakeTurn(s, turns[0]), turns[1..]);
      } else if s.queue != [] {
        assert forall i | 0 < i < |s.queue| :: IsServedBefore(s.queue[0], s.queue[i]);
      }
    }
  }

  // ----- Runs -----

  datatype Event = Commanded(command: Command) | Turned(turn: Turn)

  function Step(s: State, event: Event): State
  {
    match event
    case Commanded(c) => Execute(s, c)
    case Turned(turn) => TakeTurn(s, turn)
  }

  function Run(s: State, events: seq<Event>): State
    decreases |events|
  {
    if events == [] then s else Run(Step(s, events[0]), events[1..])
  }

  /** After any run, the list is sorted, nothing was called early and no registration was served twice. */
  lemma {:induction false} RunKeeps(s: State, events: seq<Event>)
    requires Inv(s)
    ensures Inv(Run(s, events))
    decreases |events|
  {
    hide Inv, Execute, TakeTurn;
    if events != [] {
      match events[0] {
        case Commanded(c) => ExecuteKeeps(s, c);
        case Turned(turn) => TurnKeeps(s, turn);
      }
      RunKeeps(Step(s, events[0]), events[1..]);
    }
  }

  // ----- Nothing is forgotten, and nothing is called that is not registered -----

  ghost predicate WasServed(s: State, r: Registration) { exists f | f in s.log :: f.registration == r }

  /** Still waiting, or called. */
  ghost predicate IsKept(s: State, r: Registration) { r in s.queue || WasServed(s, r) }

  lemma ExecuteKeepsRegistration(s: State, c: Command, r: Registration)
    requires Inv(s) && IsKept(s, r) && LeavesAlone(c, r.handler)
    ensures IsKept(Execute(s, c), r)
  {
    hide IsSorted, IsFaithful, Without, Inserted, IsServedBefore;
    WithoutKeeps(s.queue, c.handler);
    if !c.Stop? {
      var deadline := if c.StartOneShot? then c.deadline else c.now + c.period;
      InsertedKeeps(Without(s.queue, c.handler), Registration(c.handler, deadline, s.registrations));
    }
    assert Execute(s, c).log == s.log;
  }

  lemma {:induction false} ExecuteAllKeepsRegistration(s: State, commands: seq<Command>, r: Registration)
    requires Inv(s) && IsKept(s, r) && forall c | c in commands :: LeavesAlone(c, r.handler)
    ensures IsKept(ExecuteAll(s, commands), r)
    decreases |commands|
  {
    hide Inv, IsKept, Execute, LeavesAlone;
    if commands != [] {
      ExecuteKeeps(s, commands[0]);
      ExecuteKeepsRegistration(s, commands[0], r);
      ExecuteAllKeepsRegistration(Execute(s, commands[0]), commands[1..], r);
    }
  }

  lemma FireKeepsRegistration(s: State, now: nat, r: Registration)
    requires Inv(s) && IsDue(s, now) && IsKept(s, r)
    ensures IsKept(Fire(s, now), r)
  {
    hide IsFaithful, Without, Inserted;
    var first := s.queue[0];
    var t := s.(queue := s.queue[1..], log := s.log + [Firing(first, now)]);
    TakenOffKeeps(s, now);
    SortedTail(s.queue);
    hide IsSorted;
    assert s.queue == [first] + s.queue[1..];
    assert Firing(first, now) in t.log && forall f | f in s.log :: f in t.log;
    var next := if first.handler in s.periods then first.deadline + s.periods[first.handler] else 0;
    WithoutKeeps(t.queue, first.handler);
    InsertedKeeps(Without(t.queue, first.handler), Registration(first.handler, next, t.registrations));
  }

  /** A registration that nobody replaces or stops is not lost: it waits until it is called. */
  lemma {:induction false} RunKeepsRegistration(s: State, events: seq<Event>, r: Registration)
    requires Inv(s) && IsKept(s, r)
    requires forall event | event in events :: IsUndisturbed(event, r.handler)
    ensures IsKept(Run(s, events), r)
    decreases |events|
  {
    hide Inv, IsKept, Execute, Fire, LeavesAlone;
    if events != [] {
      assert IsUndisturbed(events[0], r.handler);
      match events[0] {
        case Commanded(c) =>
          ExecuteKeeps(s, c);
          ExecuteKeepsRegistration(s, c, r);
        case Turned(turn) =>
          TurnKeeps(s, turn);
          if IsDue(s, turn.now) {
            FireKeeps(s, turn.now);
            FireKeepsRegistration(s, turn.now, r);
            ExecuteAllKeepsRegistration(Fire(s, turn.now), turn.commands, r);
          }
      }
      RunKeepsRegistration(Step(s, events[0]), events[1..], r);
    }
  }

  /** A handler that is started is called at the latest by the first poll that ends after its deadline. */
  lemma StartedIsCalled(s: State, c: Command, events: seq<Event>, turns: seq<Turn>)
    requires Inv(s) && !c.Stop?
    requires forall event | event in events :: IsUndisturbed(event, c.handler)
    requires forall turn | turn in turns :: IsUndisturbed(Turned(turn), c.handler)
    ensures
      var deadline := if c.StartOneShot? then c.deadline else c.now + c.period;
      var p := Poll(Run(Execute(s, c), events), turns);
      p.time.Some? && deadline <= p.time.value ==>
        WasServed(p.state, Registration(c.handler, deadline, s.registrations))
  {
    var deadline := if c.StartOneShot? then c.deadline else c.now + c.period;
    var r := Registration(c.handler, deadline, s.registrations);
    StartRegisters(s, c);
    hide Execute, Run, IsUndisturbed, WasServed;
    ExecuteKeeps(s, c);
    RunKeeps(Execute(s, c), events);
    RunKeepsRegistration(Execute(s, c), events, r);
    PollServesAll(Run(Execute(s, c), events), turns);
    PollKeepsRegistration(Run(Execute(s, c), events), turns, r);
  }

  lemma StartRegisters(s: State, c: Command)
    requires Inv(s) && !c.Stop?
    ensures
      var deadline := if c.StartOneShot? then c.deadline else c.now + c.period;
      Registration(c.handler, deadline, s.registrations) in Execute(s, c).queue
  {
    hide IsSorted, IsFaithful, Without, Inserted, IsServedBefore;
    var deadline := if c.StartOneShot? then c.deadline else c.now + c.period;
    WithoutKeeps(s.queue, c.handler);
    InsertedKeeps(Without(s.queue, c.handler), Registration(c.handler, deadline, s.registrations));
  }

  lemma {:induction false} PollKeepsRegistration(s: State, turns: seq<Turn>, r: Registration)
    requires Inv(s) && IsKept(s, r)
    requires forall turn | turn in turns :: IsUndisturbed(Turned(turn), r.handler)
    ensures IsKept(Poll(s, turns).state, r)
    decreases |turns|
  {
    hide Inv, IsKept, Fire, ExecuteAll, LeavesAlone;
    if turns != [] && IsDue(s, turns[0].now) {
      var turn := turns[0];
      assert IsUndisturbed(Turned(turn), r.handler);
      TurnKeeps(s, turn);
      FireKeeps(s, turn.now);
      FireKeepsRegistration(s, turn.now, r);
      ExecuteAllKeepsRegistration(Fire(s, turn.now), turn.commands, r);
      PollKeepsRegistration(TakeTurn(s, turn), turns[1..], r);
    }
  }

  /** No command starts the handler. */
  predicate DoesNotStart(c: Command, handler: nat) { c.Stop? || c.handler != handler }

  ghost predicate IsUnstarted(event: Event, handler: nat)
  {
    match event
    case Commanded(c) => DoesNotStart(c, handler)
    case Turned(turn) => forall c | c in turn.commands :: DoesNotStart(c, handler)
  }

  /** The handler is not on the list, and has been called no more often than before. */
  ghost predicate IsIdle(s: State, handler: nat, past: seq<nat>)
  {
    (forall r | r in s.queue :: r.handler != handler) && ScheduledTimes(s.log, handler) == past
  }

  lemma ExecuteKeepsIdle(s: State, c: Command, handler: nat, past: seq<nat>)
    requires Inv(s) && IsIdle(s, handler, past) && DoesNotStart(c, handler)
    ensures IsIdle(Execute(s, c), handler, past)
  {
    hide IsSorted, IsFaithful, Without, Inserted, IsServedBefore, ScheduledTimes;
    WithoutKeeps(s.queue, c.handler);
    if !c.Stop? {
      var deadline := if c.StartOneShot? then c.deadline else c.now + c.period;
      InsertedKeeps(Without(s.queue, c.handler), Registration(c.handler, deadline, s.registrations));
    }
    assert Execute(s, c).log == s.log;
  }

  lemma {:induction false} ExecuteAllKeepsIdle(s: State, commands: seq<Command>, handler: nat, past: seq<nat>)
    requires Inv(s) && IsIdle(s, handler, past) && forall c | c in commands :: DoesNotStart(c, handler)
    ensures IsIdle(ExecuteAll(s, commands), handler, past)
    decreases |commands|
  {
    hide Inv, IsIdle, Execute, DoesNotStart;
    if commands != [] {
      ExecuteKeeps(s, commands[0]);
      ExecuteKeepsIdle(s, commands[0], handler, past);
      ExecuteAllKeepsIdle(Execute(s, commands[0]), commands[1..], handler, past);
    }
  }

  lemma FireKeepsIdle(s: State, now: nat, handler: nat, past: seq<nat>)
    requires Inv(s) && IsDue(s, now) && IsIdle(s, handler, past)
    ensures IsIdle(Fire(s, now), handler, past)
  {
    hide IsFaithful, Without, Inserted, ScheduledTimes;
    var first := s.queue[0];
    var t := s.(queue := s.queue[1..], log := s.log + [Firing(first, now)]);
    TakenOffKeeps(s, now);
    SortedTail(s.queue);
    hide IsSorted;
    ScheduledTimesAppend(s.log, Firing(first, now), handler);
    assert s.queue == [first] + s.queue[1..] && first.handler != handler;
    var next := if first.handler in s.periods then first.deadline + s.periods[first.handler] else 0;
    WithoutKeeps(t.queue, first.handler);
    InsertedKeeps(Without(t.queue, first.handler), Registration(first.handler, next, t.registrations));
  }

  lemma {:induction false} RunKeepsIdle(s: State, events: seq<Event>, handler: nat, past: seq<nat>)
    requires Inv(s) && IsIdle(s, handler, past)
    requires forall event | event in events :: IsUnstarted(event, handler)
    ensures IsIdle(Run(s, events), handler, past)
    decreases |events|
  {
    hide Inv, IsIdle, Execute, Fire, DoesNotStart;
    if events != [] {
      assert IsUnstarted(events[0], handler);
      match events[0] {
        case Commanded(c) =>
          ExecuteKeeps(s, c);
          ExecuteKeepsIdle(s, c, handler, past);
        case Turned(turn) =>
          TurnKeeps(s, turn);
          if IsDue(s, turn.now) {
            FireKeeps(s, turn.now);
            FireKeepsIdle(s, turn.now, handler, past);
            ExecuteAllKeepsIdle(Fire(s, turn.now), turn.commands, handler, past);
          }
      }
      RunKeepsIdle(Step(s, events[0]), events[1..], handler, past);
    }
  }

  /** A handler that was stopped, periodic or not, is not called until it is started again. */
  lemma StoppedIsNotCalled(s: State, handler: nat, events: seq<Event>)
    requires Inv(s)
    requires forall event | event in events :: IsUnstarted(event, handler)
    ensures ScheduledTimes(Run(Execute(s, Stop(handler)), events).log, handler) == ScheduledTimes(s.log, handler)
  {
    hide ScheduledTimes, Run, IsUnstarted;
    ExecuteKeeps(s, Stop(handler));
    WithoutKeeps(s.queue, handler);
    hide Inv;
    RunKeepsIdle(Execute(s, Stop(handler)), events, handler, ScheduledTimes(s.log, handler));
  }

  // ----- Periodic timers -----

  /** The scheduled times of one handler, in order. */
  function ScheduledTimes(log: seq<Firing>, handler: nat): seq<nat>
  {
    if log == [] then [] else
      var last := log[|log| - 1].registration;
      ScheduledTimes(log[..|log| - 1], handler) + if last.handler == handler then [last.deadline] else []
  }

  predicate LeavesAlone(c: Command, handler: nat) { c.handler != handler }

  ghost predicate IsUndisturbed(event: Event, handler: nat)
  {
    match event
    case Commanded(c) => LeavesAlone(c, handler)
    case Turned(turn) => forall c | c in turn.commands :: LeavesAlone(c, handler)
  }

  /**
    * The timer started at `start` has been called `count` times since the log was `past`, and waits for the next time.
    */
  ghost predicate IsPeriodic(s: State, handler: nat, period: nat, start: nat, past: seq<nat>)
  {
    && handler in s.periods && s.periods[handler] == period
    && var times := ScheduledTimes(s.log, handler);
       && past <= times
       && (forall k | |past| <= k < |times| :: times[k] == start + period * (k - |past| + 1))
       && (exists r | r in s.queue && r.handler == handler :: r.deadline == start + period * (|times| - |past| + 1))
  }

  lemma ExecuteLeavesPeriodic(s: State, c: Command, handler: nat, period: nat, start: nat, past: seq<nat>)
    requires Inv(s) && IsPeriodic(s, handler, period, start, past) && LeavesAlone(c, handler)
    ensures IsPeriodic(Execute(s, c), handler, period, start, past)
  {
    hide IsSorted, IsFaithful, ScheduledTimes, Without, Inserted, IsServedBefore;
    var times := ScheduledTimes(s.log, handler);
    var r :| r in s.queue && r.handler == handler && r.deadline == start + period * (|times| - |past| + 1);
    WithoutKeeps(s.queue, c.handler);
    if !c.Stop? {
      var deadline := if c.StartOneShot? then c.deadline else c.now + c.period;
      InsertedKeeps(Without(s.queue, c.handler), Registration(c.handler, deadline, s.registrations));
    }
    assert r in Execute(s, c).queue;
    assert Execute(s, c).log == s.log;
  }

  lemma {:induction false} ExecuteAllLeavesPeriodic(s: State, commands: seq<Command>, handler: nat, period: nat,
                                                    start: nat, past: seq<nat>)
    requires Inv(s) && IsPeriodic(s, handler, period, start, past)
    requires forall c | c in commands :: LeavesAlone(c, handler)
    ensures IsPeriodic(ExecuteAll(s, commands), handler, period, start, past)
    decreases |commands|
  {
    hide Inv, IsPeriodic, Execute, LeavesAlone;
    if commands != [] {
      ExecuteKeeps(s, commands[0]);
      ExecuteLeavesPeriodic(s, commands[0], handler, period, start, past);
      ExecuteAllLeavesPeriodic(Execute(s, commands[0]), commands[1..], handler, period, start, past);
    }
  }

  lemma ScheduledTimesAppend(log: seq<Firing>, f: Firing, handler: nat)
    ensures ScheduledTimes(log + [f], handler) ==
      ScheduledTimes(log, handler) + if f.registration.handler == handler then [f.registration.deadline] else []
  {
    assert (log + [f])[..|log|] == log;
  }

  /** A call of the timer itself moves it on by exactly one period, however late it is. */
  lemma FireAdvancesPeriodic(s: State, now: nat, handler: nat, period: nat, start: nat, past: seq<nat>)
    requires Inv(s) && IsDue(s, now) && IsPeriodic(s, handler, period, start, past)
    ensures IsPeriodic(Fire(s, now), handler, period, start, past)
  {
    hide IsFaithful, ScheduledTimes, Without, Inserted;
    var r := s.queue[0];
    var t := s.(queue := s.queue[1..], log := s.log + [Firing(r, now)]);
    var times := ScheduledTimes(s.log, handler);
    var own :| own in s.queue && own.handler == handler && own.deadline == start + period * (|times| - |past| + 1);
    ScheduledTimesAppend(s.log, Firing(r, now), handler);
    TakenOffKeeps(s, now);
    SortedTail(s.queue);
    hide IsSorted;
    assert s.queue == [r] + s.queue[1..];
    var next := if r.handler in s.periods then r.deadline + s.periods[r.handler] else 0;
    WithoutKeeps(t.queue, r.handler);
    InsertedKeeps(Without(t.queue, r.handler), Registration(r.handler, next, t.registrations));
    if r.handler == handler {
      assert own == r;
      var again := Registration(handler, next, t.registrations);
      assert again in Fire(s, now).queue;
      assert period * (|times| - |past| + 2) == period * (|times| - |past| + 1) + period;
    } else {
      assert own in Fire(s, now).queue;
    }
  }

  lemma StartIsPeriodic(s: State, handler: nat, period: nat, start: nat)
    requires Inv(s)
    ensures IsPeriodic(Execute(s, StartPeriodic(handler, period, start)), handler, period, start,
                       ScheduledTimes(s.log, handler))
  {
    hide IsFaithful, IsSorted, ScheduledTimes, Without, Inserted;
    var r := Registration(handler, start + period, s.registrations);
    WithoutKeeps(s.queue, handler);
    InsertedKeeps(Without(s.queue, handler), r);
    assert r in Execute(s, StartPeriodic(handler, period, start)).queue;
  }

  lemma {:induction false} RunLeavesPeriodic(s: State, events: seq<Event>, handler: nat, period: nat, start: nat,
                                             past: seq<nat>)
    requires Inv(s) && IsPeriodic(s, handler, period, start, past)
    requires forall event | event in events :: IsUndisturbed(event, handler)
    ensures IsPeriodic(Run(s, events), handler, period, start, past)
    decreases |events|
  {
    hide Inv, IsPeriodic, Execute, Fire, LeavesAlone;
    if events != [] {
      assert IsUndisturbed(events[0], handler);
      match events[0] {
        case Commanded(c) =>
          ExecuteKeeps(s, c);
          ExecuteLeavesPeriodic(s, c, handler, period, start, past);
        case Turned(turn) =>
          TurnKeeps(s, turn);
          if IsDue(s, turn.now) {
            FireKeeps(s, turn.now);
            FireAdvancesPeriodic(s, turn.now, handler, period, start, past);
            ExecuteAllLeavesPeriodic(Fire(s, turn.now), turn.commands, handler, period, start, past);
          }
      }
      RunLeavesPeriodic(Step(s, events[0]), events[1..], handler, period, start, past);
    }
  }

  /**
    * The k-th call of a periodic timer that nobody restarts or stops is for the time `start + k * period`, however late
    * the polls are and whatever other handlers do.
    */
  lemma PeriodicTimerKeepsTime(s: State, handler: nat, period: nat, start: nat, events: seq<Event>)
    requires Inv(s)
    requires forall event | event in events :: IsUndisturbed(event, handler)
    ensures
      var past := ScheduledTimes(s.log, handler);
      var times := ScheduledTimes(Run(Execute(s, StartPeriodic(handler, period, start)), events).log, handler);
      && past <= times
      && forall k | 1 <= k <= |times| - |past| :: times[|past| + k - 1] == start + period * k
  {
    hide Inv, Execute, Run, IsUndisturbed;
    var begun := Execute(s, StartPeriodic(handler, period, start));
    ExecuteKeeps(s, StartPeriodic(handler, period, start));
    StartIsPeriodic(s, handler, period, start);
    var past := ScheduledTimes(s.log, handler);
    RunLeavesPeriodic(begun, events, handler, period, start, past);
    var times := ScheduledTimes(Run(begun, events).log, handler);
    forall k | 1 <= k <= |times| - |past|
      ensures times[|past| + k - 1] == start + period * k
    {
      assert times[|past| + k - 1] == start + period * (|past| + k - 1 - |past| + 1);
    }
  }

  // ----- The scheduler object -----

  class DeadlineScheduler {
    var handlers: seq<Registration>
    var periods: map<nat, nat>
    var registrations: nat
    ghost var log: seq<Firing>

    ghost function Abs(): State
      reads this
    {
      State(handlers, periods, registrations, log)
    }

    constructor ()
      ensures Abs() == Initial() && Inv(Abs())
    {
      handlers, periods, registrations, log := [], map[], 0, [];
    }

    method Add(r: Registration)
      modifies this
      ensures Abs() == old(Abs()).(queue := Inserted(old(handlers), r))
    {
      handlers := LinkedLists.InsertBeforeFirst(handlers, r, IsLaterThan(r.deadline));
    }

    method Remove(handler: nat)
      modifies this
      ensures Abs() == old(Abs()).(queue := Without(old(handlers), handler))
    {
      handlers := LinkedLists.RemoveFirst(handlers, IsOf(handler));
    }

    method StartWithDeadline(handler: nat, deadline: nat)
      modifies this
      ensures Abs() == Register(old(Abs()), handler, deadline)
    {
      hide Without, Inserted;
      Remove(handler);
      var r := Registration(handler, deadline, registrations);
      registrations := registrations + 1;
      Add(r);
    }

    method Perform(c: Command)
      requires Inv(Abs())
      modifies this
      ensures Abs() == Execute(old(Abs()), c) && Inv(Abs())
    {
      hide Inv, Without, Inserted;
      ExecuteKeeps(Abs(), c);
      match c {
        case StartOneShot(handler, deadline) =>
          periods := periods - {handler};
          StartWithDeadline(handler, deadline);
        case StartPeriodic(handler, period, now) =>
          periods := periods[handler := period];
          StartWithDeadline(handler, now + period);
        case Stop(handler) => Remove(handler);
      }
    }

    /** The callback of the handler that was first: a periodic timer restarts, then the application acts. */
    method HandleDeadline(r: Registration, commands: seq<Command>)
      requires Inv(Abs()) && forall q | q in handlers :: q.handler != r.handler
      modifies this
      ensures
        var restarted :=
          if r.handler in old(periods) then Register(old(Abs()), r.handler, r.deadline + old(periods[r.handler]))
          else old(Abs());
        Abs() == ExecuteAll(restarted, commands)
      ensures Inv(Abs())
    {
      hide Inv, Execute, Register;
      if r.handler in periods {
        RegisterKeeps(Abs(), r.handler, r.deadline + periods[r.handler]);
        StartWithDeadline(r.handler, r.deadline + periods[r.handler]);
      }
      ghost var restarted := Abs();
      ExecuteAllKeeps(restarted, commands);
      var rest := commands;
      while rest != []
        invariant Inv(Abs()) && ExecuteAll(Abs(), rest) == ExecuteAll(restarted, commands)
        decreases |rest|
      {
        Perform(rest[0]);
        rest := rest[1..];
      }
    }

    method PollAndGetMonotonicTime(turns: seq<Turn>) returns (time: Option<nat>)
      requires Inv(Abs())
      modifies this
      ensures Polled(Abs(), time) == Poll(old(Abs()), turns)
      ensures Inv(Abs()) && (time.Some? ==> forall r | r in handlers :: r.deadline > time.value)
    {
      hide Inv, ExecuteAll, Register;
      PollServesAll(Abs(), turns);
      var rest := turns;
      while rest != []
        invariant Inv(Abs()) && Poll(Abs(), rest) == Poll(old(Abs()), turns)
        decreases |rest|
      {
        var now := rest[0].now;
        if handlers == [] || now < handlers[0].deadline {
          return Some(now);
        }
        var r := handlers[0];
        TakenOffKeeps(Abs(), now);
        OthersRemain(Abs());
        handlers := handlers[1..];
        log := log + [Firing(r, now)];
        HandleDeadline(r, rest[0].commands);
        rest := rest[1..];
      }
      time := None;
    }
  }

  lemma OthersRemain(s: State)
    requires Inv(s) && s.queue != []
    ensures forall q | q in s.queue[1..] :: q.handler != s.queue[0].handler
  {
    hide IsFaithful;
    SortedTail(s.queue);
  }
}
