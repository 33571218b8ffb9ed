/** Following the time of a master: a pair of consecutive messages yields one clock adjustment. */
module TimeSyncSlave {
  import opened Transfer
  import opened Options

  /** The limits of the protocol, in milliseconds. */
  datatype Limits = Limits(broadcasterTimeout: nat, maxPeriod: nat)

  /** A time sync message as received, times in microseconds. */
  datatype Message = Message(src: NodeId, iface: nat, tid: TransferId, monotonic: nat, utc: nat,
                             previousTransmission: nat, isBroadcast: bool)

  datatype Event = Received(msg: Message) | Suppress(on: bool)

  datatype State = State(prevUtc: nat, prevMonotonic: nat, lastAdjustment: nat, adjusting: bool, master: NodeId,
                         prevTid: TransferId, prevIface: nat, suppressed: bool)

  function Initial(): State { State(0, 0, 0, false, INVALID_NODE, 0, 0xFF, false) }

  /** What an event leads to; an adjustment reaches the clock unless the slave is suppressed. */
  datatype Outcome = Ignored | Updated | Adjusted(amount: int, applied: bool)

  function Milliseconds(later: nat, earlier: nat): int { (later - earlier) / 1000 }

  predicate NeedsInit(s: State) { !IsValidNode(s.master) || s.prevMonotonic == 0 }

  predicate HasTimedOut(limits: Limits, s: State, m: Message)
  {
    Milliseconds(m.monotonic, s.prevMonotonic) > limits.broadcasterTimeout
  }

  predicate ForcesUpdate(limits: Limits, s: State, m: Message)
  {
    m.src < s.master || HasTimedOut(limits, s, m) || NeedsInit(s)
  }

  /** The message that completes the pair. */
  predicate CompletesPair(limits: Limits, s: State, m: Message)
  {
    && m.previousTransmission != 0 && ForwardDistance(s.prevTid, m.tid) == 1
    && Milliseconds(m.monotonic, s.prevMonotonic) <= limits.maxPeriod
  }

  function OutcomeOfMessage(limits: Limits, s: State, m: Message): Outcome
  {
    if ForcesUpdate(limits, s, m) then Updated
    else if m.iface != s.prevIface || m.src != s.master then Ignored
    else if s.adjusting && CompletesPair(limits, s, m) then Adjusted(m.previousTransmission - s.prevUtc, !s.suppressed)
    else Updated
  }

  function OutcomeOf(limits: Limits, s: State, event: Event): Outcome
  {
    if event.Received? && event.msg.isBroadcast then OutcomeOfMessage(limits, s, event.msg) else Ignored
  }

  function AfterUpdate(s: State, m: Message): State
  {
    s.(prevUtc := m.utc, prevMonotonic := m.monotonic, master := m.src, prevIface := m.iface, prevTid := m.tid,
       adjusting := true)
  }

  function AfterAdjustment(s: State, m: Message): State { s.(lastAdjustment := m.monotonic, adjusting := false) }

  function Step(limits: Limits, s: State, event: Event): State
  {
    match event
    case Suppress(on) => s.(suppressed := on)
    case Received(m) =>
      match OutcomeOf(limits, s, event)
      case Ignored => s
      case Updated => AfterUpdate(s, m)
      case Adjusted(_, _) => AfterAdjustment(s, m)
  }

  /** The state before event `k` of a run from the start. */
  function StateAt(limits: Limits, events: seq<Event>, k: nat): State
    requires k <= |events|
  {
    if k == 0 then Initial() else Step(limits, StateAt(limits, events, k - 1), events[k - 1])
  }

  function OutcomeAt(limits: Limits, events: seq<Event>, k: nat): Outcome
    requires k < |events|
  {
    OutcomeOf(limits, StateAt(limits, events, k), events[k])
  }

  // ----- Runs -----

  /** The state remembers the message of event `i`. */
  ghost predicate Remembers(s: State, events: seq<Event>, i: nat)
    requires i < |events|
  {
    && events[i].Received?
    && var p := events[i].msg;
       && s.prevUtc == p.utc && s.prevMonotonic == p.monotonic
       && s.master == p.src && s.prevIface == p.iface && s.prevTid == p.tid
  }

  /** Event `i` is the last update before event `k`. */
  ghost predicate IsLastUpdate(limits: Limits, events: seq<Event>, i: nat, k: nat)
    requires i < k <= |events|
  {
    && OutcomeAt(limits, events, i) == Updated
    && forall j: nat | i < j < k :: OutcomeAt(limits, events, j) != Updated
  }

  ghost predicate NothingSince(limits: Limits, events: seq<Event>, i: nat, k: nat)
    requires i < k <= |events|
  {
    forall j: nat | i < j < k :: OutcomeAt(limits, events, j) == Ignored
  }

  /** What the slave knows before any event comes from the last update, and it waits for a pair only right after it. */
  lemma {:induction false} LastUpdateIsRemembered(limits: Limits, events: seq<Event>, k: nat) returns (i: nat)
    requires k <= |events| && StateAt(limits, events, k).master != INVALID_NODE
    ensures i < k && IsLastUpdate(limits, events, i, k) && Remembers(StateAt(limits, events, k), events, i)
    ensures StateAt(limits, events, k).adjusting ==> NothingSince(limits, events, i, k)
    decreases k
  {
    hide OutcomeOf;
    var last := k - 1;
    if OutcomeAt(limits, events, last) == Updated {
      i := last;
      UpdateRemembers(limits, events, last);
    } else {
      NoUpdateKeepsMaster(limits, events, last);
      i := LastUpdateIsRemembered(limits, events, last);
    }
  }

  lemma UpdateRemembers(limits: Limits, events: seq<Event>, k: nat)
    requires k < |events| && OutcomeAt(limits, events, k) == Updated
    ensures Remembers(StateAt(limits, events, k + 1), events, k)
  {
  }

  lemma NoUpdateKeepsMaster(limits: Limits, events: seq<Event>, k: nat)
    requires k < |events| && OutcomeAt(limits, events, k) != Updated
    ensures
      var s, t := StateAt(limits, events, k), StateAt(limits, events, k + 1);
      && t.(suppressed := s.suppressed, adjusting := s.adjusting, lastAdjustment := s.lastAdjustment) == s
      && (t.adjusting ==> s.adjusting && OutcomeAt(limits, events, k) == Ignored)
  {
  }

  /**
    * Every adjustment pairs a message with the last update, from the same master over the same interface, one transfer
    * later and within the allowed period; the amount is the difference between the master's time of sending the
    * earlier message and the local time of receiving it. Nothing has happened in between.
    */
  lemma AdjustmentsArePaired(limits: Limits, events: seq<Event>, k: nat) returns (i: nat)
    requires k < |events| && OutcomeAt(limits, events, k).Adjusted?
    ensures i < k && events[i].Received? && events[k].Received?
    ensures OutcomeAt(limits, events, i) == Updated && NothingSince(limits, events, i, k)
    ensures
      var p, m, outcome := events[i].msg, events[k].msg, OutcomeAt(limits, events, k);
      && p.src == m.src && p.iface == m.iface && m.tid == Increment(p.tid)
      && Milliseconds(m.monotonic, p.monotonic) <= limits.maxPeriod && m.previousTransmission != 0
      && outcome.amount == m.previousTransmission - p.utc
      && outcome.applied == !StateAt(limits, events, k).suppressed
  {
    hide StateAt;
    i := LastUpdateIsRemembered(limits, events, k);
  }

  /** No update serves two adjustments: between any two there is a new one, which the second is paired with. */
  lemma UpdatesAreUsedOnce(limits: Limits, events: seq<Event>, k: nat, k': nat) returns (i: nat)
    requires k < k' < |events|
    requires OutcomeAt(limits, events, k).Adjusted? && OutcomeAt(limits, events, k').Adjusted?
    ensures k < i < k' && OutcomeAt(limits, events, i) == Updated && NothingSince(limits, events, i, k')
  {
    hide OutcomeAt;
    i := AdjustmentsArePaired(limits, events, k');
  }

  /** After an update the slave waits for the second message of the pair until something happens. */
  lemma {:induction false} WaitsForPair(limits: Limits, events: seq<Event>, i: nat, k: nat)
    requires i < k <= |events| && OutcomeAt(limits, events, i) == Updated && NothingSince(limits, events, i, k)
    ensures StateAt(limits, events, k).adjusting && Remembers(StateAt(limits, events, k), events, i)
    decreases k
  {
    if i < k - 1 {
      WaitsForPair(limits, events, i, k - 1);
      assert OutcomeAt(limits, events, k - 1) == Ignored;
    } else {
      UpdateRemembers(limits, events, i);
    }
  }

  /**
    * Every pair leads to an adjustment: an update, and then, with nothing in between that matters, the next message of
    * the same master over the same interface within the allowed period.
    */
  lemma PairsAreAdjusted(limits: Limits, events: seq<Event>, i: nat, k: nat)
    requires i < k < |events| && OutcomeAt(limits, events, i) == Updated && NothingSince(limits, events, i, k)
    requires events[i].Received? && events[k].Received? && events[k].msg.isBroadcast
    requires
      var p, m := events[i].msg, events[k].msg;
      && p.src < 128 && p.monotonic != 0 && m.src == p.src && m.iface == p.iface && m.tid == (p.tid + 1) % 32
      && (m.monotonic - p.monotonic) / 1000 <= limits.maxPeriod <= limits.broadcasterTimeout
      && m.previousTransmission != 0
    ensures OutcomeAt(limits, events, k) ==
      Adjusted(events[k].msg.previousTransmission - events[i].msg.utc, !StateAt(limits, events, k).suppressed)
    ensures StateAt(limits, events, k + 1).lastAdjustment == events[k].msg.monotonic
  {
    assert StateAt(limits, events, k + 1) == Step(limits, StateAt(limits, events, k), events[k]);
    hide StateAt;
    WaitsForPair(limits, events, i, k);
  }

  /** A message of the followed master over the followed interface that completes no pair begins the next one. */
  lemma OtherwiseUpdated(limits: Limits, s: State, m: Message)
    requires m.isBroadcast && m.src == s.master && m.iface == s.prevIface
    ensures !OutcomeOf(limits, s, Received(m)).Adjusted? ==> OutcomeOf(limits, s, Received(m)) == Updated
    ensures OutcomeOf(limits, s, Received(m)).Adjusted? <==>
      && s.adjusting && s.master < 128 && s.prevMonotonic != 0
      && (m.monotonic - s.prevMonotonic) / 1000 <= limits.broadcasterTimeout
      && (m.monotonic - s.prevMonotonic) / 1000 <= limits.maxPeriod
      && m.tid == (s.prevTid + 1) % 32 && m.previousTransmission != 0
  {
  }

  // ----- Changing the master -----

  /** A message takes the slave to a master with a higher node identifier exactly if the last update is too old. */
  lemma MasterRisesIff(limits: Limits, s: State, m: Message)
    requires IsValidNode(s.master) && s.prevMonotonic != 0 && m.isBroadcast
    ensures Step(limits, s, Received(m)).master > s.master <==> m.src > s.master && HasTimedOut(limits, s, m)
  {
  }

  /** A message takes the slave to a master with a lower node identifier exactly if it comes from there. */
  lemma MasterFallsIff(limits: Limits, s: State, m: Message)
    requires IsValidNode(s.master) && s.prevMonotonic != 0 && m.isBroadcast
    ensures Step(limits, s, Received(m)).master < s.master <==> m.src < s.master
  {
  }

  /** The slave starts over: it knows no master yet, or the last update is older than the timeout. */
  predicate StartsOver(limits: Limits, s: State, event: Event)
  {
    && event.Received? && event.msg.isBroadcast
    && (|| !IsValidNode(s.master) || s.prevMonotonic == 0
        || (event.msg.monotonic - s.prevMonotonic) / 1000 > limits.broadcasterTimeout)
  }

  /** Unless the slave starts over, the master never rises, and is not above the node that was heard. */
  lemma MasterStaysLow(limits: Limits, s: State, event: Event)
    ensures !StartsOver(limits, s, event) ==> Step(limits, s, event).master <= s.master
    ensures event.Received? && event.msg.isBroadcast ==> Step(limits, s, event).master <= event.msg.src
  {
  }

  /** The master that is followed is not above any node heard since the slave last started over. */
  lemma {:induction false} LowestNodeIsFollowed(limits: Limits, events: seq<Event>, j: nat, k: nat)
    requires j < k <= |events| && events[j].Received? && events[j].msg.isBroadcast
    requires forall i: nat | j < i < k :: !StartsOver(limits, StateAt(limits, events, i), events[i])
    ensures StateAt(limits, events, k).master <= events[j].msg.src
    decreases k
  {
    hide Step, StartsOver;
    MasterStaysLow(limits, StateAt(limits, events, k - 1), events[k - 1]);
    if j < k - 1 {
      LowestNodeIsFollowed(limits, events, j, k - 1);
    }
  }

  /** A message of the node and over the interface of message `p`. */
  predicate IsHeardLike(event: Event, p: Message)
  {
    event.Received? && event.msg.isBroadcast && event.msg.src == p.src && event.msg.iface == p.iface
  }

  lemma {:induction false} StillRemembers(limits: Limits, events: seq<Event>, i: nat, j: nat, k: nat)
    requires i < j <= k <= |events| && IsLastUpdate(limits, events, i, k)
    ensures Remembers(StateAt(limits, events, j), events, i)
    ensures StateAt(limits, events, j).adjusting ==> NothingSince(limits, events, i, j)
    decreases j
  {
    hide OutcomeOf;
    if j == i + 1 {
      UpdateRemembers(limits, events, i);
    } else {
      StillRemembers(limits, events, i, j - 1, k);
      NoUpdateKeepsMaster(limits, events, j - 1);
    }
  }

  /** What the slave hears from its master after the last update is the other half of the pair. */
  lemma HeardSinceIsAdjustment(limits: Limits, events: seq<Event>, i: nat, j: nat, k: nat)
    requires i < j < k <= |events| && IsLastUpdate(limits, events, i, k)
    requires Remembers(StateAt(limits, events, k), events, i)
    requires IsHeardLike(events[j], events[i].msg)
    ensures OutcomeAt(limits, events, j).Adjusted? && NothingSince(limits, events, i, j)
    ensures Milliseconds(events[j].msg.monotonic, events[i].msg.monotonic) <= limits.maxPeriod
  {
    hide StateAt, Milliseconds;
    StillRemembers(limits, events, i, j, k);
    assert OutcomeAt(limits, events, j) != Updated;
  }

  /**
    * The slave moves to a master with a higher node identifier only if the last update is older than the timeout. Since
    * then it has heard the current master at most once over the interface it follows, within the allowed period of that
    * update, so that the master has been silent there for longer than the difference.
    */
  lemma MasterRisesOnlyAfterTimeout(limits: Limits, events: seq<Event>, k: nat) returns (i: nat)
    requires k < |events| && IsValidNode(StateAt(limits, events, k).master)
    requires StateAt(limits, events, k + 1).master > StateAt(limits, events, k).master
    requires StateAt(limits, events, k).prevMonotonic != 0
    ensures i < k && IsLastUpdate(limits, events, i, k) && events[i].Received? && events[k].Received?
    ensures events[i].msg.src == StateAt(limits, events, k).master
    ensures Milliseconds(events[k].msg.monotonic, events[i].msg.monotonic) > limits.broadcasterTimeout
    ensures forall j: nat | i < j < k && IsHeardLike(events[j], events[i].msg) ::
      && OutcomeAt(limits, events, j).Adjusted?
      && Milliseconds(events[j].msg.monotonic, events[i].msg.monotonic) <= limits.maxPeriod
      && events[k].msg.monotonic - events[j].msg.monotonic > (limits.broadcasterTimeout - limits.maxPeriod) * 1000
    ensures forall j: nat, j': nat | i < j < j' < k && IsHeardLike(events[j], events[i].msg) ::
      !IsHeardLike(events[j'], events[i].msg)
  {
    i := LastUpdateIsRemembered(limits, events, k);
    hide IsLastUpdate, Remembers;
    forall j: nat | i < j < k && IsHeardLike(events[j], events[i].msg)
      ensures
        && OutcomeAt(limits, events, j).Adjusted?
        && Milliseconds(events[j].msg.monotonic, events[i].msg.monotonic) <= limits.maxPeriod
      ensures NothingSince(limits, events, i, j)
    {
      HeardSinceIsAdjustment(limits, events, i, j, k);
    }
  }

  // Node 5 is followed from 1 ms on and heard again at 1101 ms; node 9 is heard at 2202 ms.
  const FIRST_OF_FIVE := Message(5, 0, 0, 1_000, 1_000, 0, true)
  const SECOND_OF_FIVE := Message(5, 0, 1, 1_101_000, 1_101_000, 1_000, true)
  const FIRST_OF_NINE := Message(9, 0, 0, 2_202_000, 2_202_000, 0, true)

  /** A master that is heard once a period can be left all the same, half the timeout after it was heard. */
  lemma HeardMasterCanBeLeft()
    ensures
      var limits := Limits(2200, 1100);
      var events := [Received(FIRST_OF_FIVE), Received(SECOND_OF_FIVE), Received(FIRST_OF_NINE)];
      && OutcomeAt(limits, events, 1) == Adjusted(0, true)
      && StateAt(limits, events, 2).master == 5 && StateAt(limits, events, 3).master == 9
  {
    var limits := Limits(2200, 1100);
    var events := [Received(FIRST_OF_FIVE), Received(SECOND_OF_FIVE), Received(FIRST_OF_NINE)];
    assert StateAt(limits, events, 1) == AfterUpdate(Initial(), FIRST_OF_FIVE);
    assert StateAt(limits, events, 2) == AfterAdjustment(StateAt(limits, events, 1), SECOND_OF_FIVE);
  }

  class GlobalTimeSyncSlave {
    const limits: Limits
    var prevUtc: nat
    var prevMonotonic: nat
    var lastAdjustment: nat
    var adjusting: bool
    var master: NodeId
    var prevTid: TransferId
    var prevIface: nat
    var suppressed: bool
    /** What the system clock has been told. */
    var adjustments: seq<int>

    ghost function Abs(): State
      reads this
    {
      State(prevUtc, prevMonotonic, lastAdjustment, adjusting, master, prevTid, prevIface, suppressed)
    }

    constructor (limits: Limits)
      ensures this.limits == limits && Abs() == Initial() && adjustments == []
    {
      this.limits := limits;
      prevUtc, prevMonotonic, lastAdjustment, adjusting := 0, 0, 0, false;
      master, prevTid, prevIface, suppressed, adjustments := INVALID_NODE, 0, 0xFF, false, [];
    }

    method AdjustFromMsg(m: Message)
      modifies this
      ensures Abs() == AfterAdjustment(old(Abs()), m)
      ensures adjustments ==
        old(adjustments) + if old(suppressed) then [] else [m.previousTransmission - old(prevUtc)]
    {
      var adjustment := m.previousTransmission - prevUtc;
      if !suppressed {
        adjustments := adjustments + [adjustment];
      }
      lastAdjustment := m.monotonic;
      adjusting := false;
    }

    method UpdateFromMsg(m: Message)
      modifies this
      ensures Abs() == AfterUpdate(old(Abs()), m) && adjustments == old(adjustments)
    {
      prevUtc, prevMonotonic, master, prevIface, prevTid := m.utc, m.monotonic, m.src, m.iface, m.tid;
      adjusting := true;
    }

    method ProcessMsg(m: Message)
      requires m.isBroadcast
      modifies this
      ensures Abs() == Step(limits, old(Abs()), Received(m))
      ensures
        var outcome := OutcomeOf(limits, old(Abs()), Received(m));
        adjustments == old(adjustments) + if outcome.Adjusted? && outcome.applied then [outcome.amount] else []
    {
      hide Milliseconds, ForwardDistance;
      var sincePrev := Milliseconds(m.monotonic, prevMonotonic);
      var needsInit := !IsValidNode(master) || prevMonotonic == 0;
      var switchMaster := m.src < master;
      var timeout := sincePrev > limits.broadcasterTimeout;
      if switchMaster || timeout || needsInit {
        UpdateFromMsg(m);
      } else if m.iface == prevIface && m.src == master {
        if adjusting {
          var invalid := m.previousTransmission == 0;
          var wrongTid := ForwardDistance(prevTid, m.tid) != 1;
          var wrongTiming := sincePrev > limits.maxPeriod;
          if invalid || wrongTid || wrongTiming {
            adjusting := false;
          }
        }
        if adjusting {
          AdjustFromMsg(m);
        } else {
          UpdateFromMsg(m);
        }
      }
    }

    method HandleGlobalTimeSync(m: Message)
      modifies this
      ensures Abs() == Step(limits, old(Abs()), Received(m))
      ensures
        var outcome := OutcomeOf(limits, old(Abs()), Received(m));
        adjustments == old(adjustments) + if outcome.Adjusted? && outcome.applied then [outcome.amount] else []
    {
      if m.isBroadcast {
        ProcessMsg(m);
      }
    }

    method SetSuppressed(on: bool)
      modifies this
      ensures Abs() == Step(limits, old(Abs()), Suppress(on)) && adjustments == old(adjustments)
    {
      suppressed := on;
    }
  }
}
