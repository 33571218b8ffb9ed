/** Sending a frame over several interfaces: directly if the driver takes it, through the queues otherwise. */
module CanIo {
  import opened Arithmetic
  import opened Options
  import opened Can
  import opened TxQueue

  const ERR_DRIVER := 4

  /** How a frame got on its way: accepted by the driver when offered or out of the queue, or pushed to the queue. */
  datatype Kind = Direct | FromQueue | ToQueue

  datatype Event = Event(kind: Kind, iface: nat, frame: CanFrame, deadline: nat, flags: nat)

  function Count(log: seq<Event>, kind: Kind, iface: nat): nat
  {
    if log == [] then 0 else
      var last := log[|log| - 1];
      Count(log[..|log| - 1], kind, iface) + if last.kind == kind && last.iface == iface then 1 else 0
  }

  /** The number of frames the driver accepted. */
  function Sends(log: seq<Event>): nat
  {
    if log == [] then 0 else
      Sends(log[..|log| - 1]) + if log[|log| - 1].kind == ToQueue then 0 else 1
  }

  lemma CountAppended(log: seq<Event>, e: Event, kind: Kind, iface: nat)
    ensures Count(log + [e], kind, iface) ==
      Count(log, kind, iface) + if e.kind == kind && e.iface == iface then 1 else 0
    ensures Sends(log + [e]) == Sends(log) + if e.kind == ToQueue then 0 else 1
  {
    assert (log + [e])[..|log|] == log;
  }

  lemma CountsAppended(log: seq<Event>, e: Event)
    ensures forall kind, i: nat ::
      Count(log + [e], kind, i) == Count(log, kind, i) + (if e.kind == kind && e.iface == i then 1 else 0)
    ensures Sends(log + [e]) == Sends(log) + if e.kind == ToQueue then 0 else 1
  {
    forall kind, i: nat
      ensures Count(log + [e], kind, i) == Count(log, kind, i) + if e.kind == kind && e.iface == i then 1 else 0
    {
      CountAppended(log, e, kind, i);
    }
    CountAppended(log, e, e.kind, e.iface);
  }

  /**
    * One turn of the loop as driver, clock and pool see it: what select returns, what the driver answers when offered
    * the front of a queue or the frame itself, the times read, and what the pool grants.
    */
  datatype Round = Round(selected: int, writable: set<nat>, queueAnswer: nat -> int, directAnswer: nat -> int,
                         peekTime: nat -> nat, endTime: nat, pushTime: nat -> nat, grants: nat -> Grants)

  datatype Request = Request(frame: CanFrame, deadline: nat, qos: Qos, flags: nat)

  function EventFor(request: Request, kind: Kind, iface: nat): Event
  {
    Event(kind, iface, request.frame, request.deadline, request.flags)
  }

  /** The state of an interface's queue after the frame has been pushed to it. */
  function PushedTo(s: State, request: Request, round: Round, i: nat): State
  {
    AfterPush(s, NewEntry(s, request.frame, request.deadline, request.qos, request.flags), round.pushTime(i),
              round.grants(i))
  }

  /** A push that comes too late is counted and changes nothing else. */
  lemma LatePushIsRejected(s: State, request: Request, round: Round, i: nat)
    requires round.pushTime(i) >= request.deadline
    ensures PushedTo(s, request, round, i) == Reject(s.(pushes := s.pushes + 1))
  {
  }

  /** Serving a queue adds no entry and offers none. */
  ghost predicate IsServedFrom(before: State, after: State)
  {
    after.pushes == before.pushes && forall e | e in after.entries :: e in before.entries
  }

  ghost predicate AreServedFrom(before: seq<State>, after: seq<State>)
  {
    |after| == |before| && forall i | 0 <= i < |before| :: IsServedFrom(before[i], after[i])
  }

  /** The frame has been pushed exactly to the queues of `pushed`. */
  ghost predicate ArePushed(before: seq<State>, after: seq<State>, request: Request, pushed: set<nat>, round: Round)
  {
    && |after| == |before|
    && forall i: nat | i < |before| ::
         after[i] == if i in pushed then PushedTo(before[i], request, round, i) else before[i]
  }

  /** The clock does not go back between the last look at it and a push. */
  ghost predicate ClockAdvances(round: Round)
  {
    forall i: nat :: round.pushTime(i) >= round.endTime
  }

  /** ToQueue too late, the frame gets into no queue. */
  lemma LatePushesAddNothing(first: seq<State>, before: seq<State>, after: seq<State>, request: Request,
                             pushed: set<nat>, round: Round)
    requires AreServedFrom(first, before) && ArePushed(before, after, request, pushed, round)
    requires ClockAdvances(round) && round.endTime >= request.deadline
    ensures forall i, e | 0 <= i < |after| && e in after[i].entries :: e in first[i].entries
  {
    hide AfterPush;
    forall i, e | 0 <= i < |after| && e in after[i].entries
      ensures e in first[i].entries
    {
      assert round.pushTime(i) >= round.endTime;
      LatePushIsRejected(before[i], request, round, i);
      assert IsServedFrom(first[i], before[i]);
    }
  }

  // ----- One turn -----

  /** What the driver is offered on an interface that can be written to, and how it answers. */
  datatype Offer = Offer(result: int, direct: bool)

  /** A frame still to be sent waits behind the queue if the front of it is of the same or a higher priority. */
  ghost function OfferTo(s: State, request: Request, wanted: bool, round: Round, i: nat): Offer
  {
    var queueFirst := !wanted || LeadsWith(s, request.frame);
    var hasPending := AfterPeek(s, round.peekTime(i)).entries != [];
    var fromQueue := if queueFirst && hasPending then round.queueAnswer(i) else 0;
    if wanted && fromQueue <= 0 then Offer(round.directAnswer(i), round.directAnswer(i) > 0)
    else Offer(fromQueue, false)
  }

  /** The queue after its first entry with time left, if any, was offered to the driver. */
  function AfterService(s: State, now: nat, answer: int): State
  {
    var t := AfterPeek(s, now);
    if t.entries != [] && answer > 0 then AfterTake(t) else t
  }

  ghost function AfterOffer(s: State, request: Request, wanted: bool, round: Round, i: nat): State
  {
    if wanted && !LeadsWith(s, request.frame) then s else AfterService(s, round.peekTime(i), round.queueAnswer(i))
  }

  /** A frame overtakes one that waits ahead of it exactly if the driver refuses the queue but takes the frame. */
  lemma OvertakesIff(s: State, request: Request, wanted: bool, round: Round, i: nat)
    requires Inv(s) && WaitsAhead(s, request.frame, round.peekTime(i))
    ensures OfferTo(s, request, wanted, round, i).direct <==>
      wanted && round.queueAnswer(i) <= 0 < round.directAnswer(i)
  {
    hide Inv, LeadsWith, WaitsAhead, AfterPeek;
    WaitingIsOffered(s, request.frame, round.peekTime(i));
  }

  /**
    * The order on the bus. A frame that wins arbitration against the whole queue goes first, and the queue stays as it
    * is. Otherwise, or if nothing is to be sent, the first entry with time left goes first, and the frame itself only
    * if there is none or the driver refuses it.
    */
  lemma OffersAreByPriority(s: State, request: Request, wanted: bool, round: Round, i: nat)
    ensures
      var offer, s' := OfferTo(s, request, wanted, round, i), AfterOffer(s, request, wanted, round, i);
      var wins := s.entries == [] || ArbitrationField(request.frame) < ArbitrationField(s.entries[0].frame);
      var pending := exists e | e in s.entries :: round.peekTime(i) <= e.deadline;
      if wanted && wins then
        offer == Offer(round.directAnswer(i), round.directAnswer(i) > 0) && s' == s
      else if pending && round.queueAnswer(i) > 0 then
        offer == Offer(round.queueAnswer(i), false) && |s'.sent| == |s.sent| + 1
      else
        s'.sent == s.sent && offer == if wanted then Offer(round.directAnswer(i), round.directAnswer(i) > 0)
                                      else Offer(if pending then round.queueAnswer(i) else 0, false)
  {
    hide AfterPeek, LeadsWith, ArbitrationField;
    LeadsByArbitration(s, request.frame);
    PendingIff(s, round.peekTime(i));
    PeekLeaves(s, round.peekTime(i));
  }

  /**
    * Although nothing with time left waits ahead of it, a frame has to wait for a queued one of lower priority exactly
    * if an expired one of the same or a higher priority is still in front, and the driver takes what comes next.
    */
  lemma LowerPriorityGoesFirstIff(s: State, request: Request, round: Round, i: nat)
    requires Inv(s) && !WaitsAhead(s, request.frame, round.peekTime(i))
    ensures
      var offer := OfferTo(s, request, true, round, i);
      var expiredInFront := s.entries != [] && s.entries[0].deadline < round.peekTime(i)
                            && ArbitrationField(s.entries[0].frame) <= ArbitrationField(request.frame);
      var pending := exists e | e in s.entries :: round.peekTime(i) <= e.deadline;
      offer.result > 0 && !offer.direct <==> expiredInFront && pending && round.queueAnswer(i) > 0
  {
    hide Inv, AfterPeek, LeadsWith, ArbitrationField;
    OffersAreByPriority(s, request, true, round, i);
    if s.entries != [] && !IsAhead(s.entries[0], request.frame, round.peekTime(i)) {
      assert s.entries[0] in s.entries;
    }
  }

  lemma OfferServes(s: State, request: Request, wanted: bool, round: Round, i: nat)
    ensures IsServedFrom(s, AfterOffer(s, request, wanted, round, i))
  {
    hide AfterPeek, LeadsWith;
    PeekLeaves(s, round.peekTime(i));
    var t := AfterPeek(s, round.peekTime(i));
    if t.entries != [] {
      WithoutKeeps(t.entries, 0);
    }
  }

  /** The interfaces on which the frame is still to be sent, and the queues. */
  datatype Stage = Stage(left: set<nat>, states: seq<State>)

  /** Interfaces that can be written to are served if they have something to send. */
  predicate IsServed(stage: Stage, round: Round, i: nat)
  {
    i < |stage.states| && i in round.writable && (i in stage.left || stage.states[i].entries != [])
  }

  /** One turn of the loop, interface by interface. */
  ghost predicate IsTurn(stage: Stage, stage': Stage, request: Request, round: Round)
  {
    && |stage'.states| == |stage.states| && stage'.left <= stage.left
    && forall i: nat | i < |stage.states| ::
         if IsServed(stage, round, i) then
           && stage'.states[i] == AfterOffer(stage.states[i], request, i in stage.left, round, i)
           && (i in stage'.left <==>
                i in stage.left && !OfferTo(stage.states[i], request, i in stage.left, round, i).direct)
         else
           stage'.states[i] == stage.states[i] && (i in stage'.left <==> i in stage.left)
  }

  /** The same, with the interfaces below `i` done. */
  ghost predicate IsPartOfTurn(stage: Stage, stage': Stage, request: Request, round: Round, writable: set<nat>, i: nat)
  {
    && |stage'.states| == |stage.states| && stage'.left <= stage.left
    && forall j: nat | j < |stage.states| ::
         if j < i && j in writable then
           && stage'.states[j] == AfterOffer(stage.states[j], request, j in stage.left, round, j)
           && (j in stage'.left <==>
                j in stage.left && !OfferTo(stage.states[j], request, j in stage.left, round, j).direct)
         else
           stage'.states[j] == stage.states[j] && (j in stage'.left <==> j in stage.left)
  }

  lemma PartOfTurnGrows(stage: Stage, stage': Stage, request: Request, round: Round, writable: set<nat>, i: nat)
    requires IsPartOfTurn(stage, stage', request, round, writable, i) && i < |stage.states|
    ensures stage'.states[i] == stage.states[i] && (i in stage'.left <==> i in stage.left)
    ensures i !in writable ==> IsPartOfTurn(stage, stage', request, round, writable, i + 1)
    ensures i in writable ==>
      var s, wanted := stage'.states[i], i in stage'.left;
      var left := if OfferTo(s, request, wanted, round, i).direct then stage'.left - {i} else stage'.left;
      IsPartOfTurn(stage, Stage(left, stage'.states[i := AfterOffer(s, request, wanted, round, i)]), request, round,
                   writable, i + 1)
  {
    hide AfterOffer, OfferTo;
    OnlyWantedIsDirect(stage.states[i], request, i in stage.left, round, i);
  }

  lemma NoPartOfTurn(stage: Stage, request: Request, round: Round, writable: set<nat>)
    ensures IsPartOfTurn(stage, stage, request, round, writable, 0)
  {
  }

  lemma PartsMakeTurn(stage: Stage, stage': Stage, request: Request, round: Round, writable: set<nat>)
    requires IsPartOfTurn(stage, stage', request, round, writable, |stage.states|)
    requires forall i: nat | i < |stage.states| :: i in writable <==> IsServed(stage, round, i)
    ensures IsTurn(stage, stage', request, round)
  {
    hide AfterOffer, OfferTo, IsServed;
  }

  lemma OnlyWantedIsDirect(s: State, request: Request, wanted: bool, round: Round, i: nat)
    ensures OfferTo(s, request, wanted, round, i).direct ==> wanted && OfferTo(s, request, wanted, round, i).result > 0
  {
  }

  /** The turns of a call, as long as something is left to send and neither an error nor the deadline ends it. */
  ghost predicate IsTrail(trail: seq<Stage>, request: Request, limit: nat, rounds: seq<Round>)
  {
    && 1 <= |trail| <= |rounds| + 1
    && forall k: nat | k < |trail| - 1 ::
         && trail[k].left != {} && rounds[k].selected >= 0 && IsTurn(trail[k], TrailNext(trail, k), request, rounds[k])
         && (k < |trail| - 2 ==> rounds[k].endTime < limit)
  }

  function TrailNext(trail: seq<Stage>, k: nat): Stage
    requires k < |trail| - 1
  {
    trail[k + 1]
  }

  /**
    * In every turn of a call, on every interface that can be written to. As long as it lacks the frame: if the frame
    * wins arbitration against the queue, it is sent exactly if the driver takes it, and the queue has to wait.
    * Otherwise a queued frame with time left goes first, unless the driver refuses it.
    */
  lemma TrailKeepsPriority(trail: seq<Stage>, request: Request, limit: nat, rounds: seq<Round>, k: nat, i: nat)
    requires IsTrail(trail, request, limit, rounds) && k < |trail| - 1 && i < |trail[k].states|
    ensures |TrailNext(trail, k).states| == |trail[k].states|
    ensures
      var s, s' := trail[k].states[i], TrailNext(trail, k).states[i];
      var wanted, isLeft := i in trail[k].left, i in TrailNext(trail, k).left;
      var wins := wanted && (s.entries == [] || ArbitrationField(request.frame) < ArbitrationField(s.entries[0].frame));
      var pending := exists e | e in s.entries :: rounds[k].peekTime(i) <= e.deadline;
      if i !in rounds[k].writable then s' == s && isLeft == wanted
      else if !wins && pending && rounds[k].queueAnswer(i) > 0 then isLeft == wanted && |s'.sent| == |s.sent| + 1
      else s'.sent == s.sent && (isLeft <==> wanted && rounds[k].directAnswer(i) <= 0)
  {
    hide AfterOffer, OfferTo, ArbitrationField;
    assert IsTurn(trail[k], TrailNext(trail, k), request, rounds[k]);
    OffersAreByPriority(trail[k].states[i], request, i in trail[k].left, rounds[k], i);
  }

  lemma TrailGrows(trail: seq<Stage>, stage: Stage, request: Request, limit: nat, rounds: seq<Round>)
    requires IsTrail(trail, request, limit, rounds) && |trail| <= |rounds|
    requires
      var k := |trail| - 1;
      && trail[k].left != {} && rounds[k].selected >= 0 && IsTurn(trail[k], stage, request, rounds[k])
      && (k > 0 ==> rounds[k - 1].endTime < limit)
    ensures IsTrail(trail + [stage], request, limit, rounds)
  {
    hide IsTurn;
    var longer := trail + [stage];
    forall k: nat | k < |longer| - 1
      ensures
        && longer[k].left != {} && rounds[k].selected >= 0
        && IsTurn(longer[k], TrailNext(longer, k), request, rounds[k])
        && (k < |longer| - 2 ==> rounds[k].endTime < limit)
    {
      if k < |trail| - 1 {
        assert longer[k] == trail[k] && TrailNext(longer, k) == TrailNext(trail, k);
      }
    }
  }

  /**
    * What a call has done so far: the driver took the frame once on each interface of `sent`, it was pushed once to
    * the queue of each interface of `pushed`, neither anywhere else, and `count` frames went out, those from the
    * queues included.
    */
  ghost predicate Progress(start: seq<Event>, log: seq<Event>, request: Request, sent: set<nat>, pushed: set<nat>,
                           count: int)
  {
    && start <= log && count == Sends(log) - Sends(start)
    && (forall i: nat :: Count(log, Direct, i) == Count(start, Direct, i) + (if i in sent then 1 else 0))
    && (forall i: nat :: Count(log, ToQueue, i) == Count(start, ToQueue, i) + (if i in pushed then 1 else 0))
    && (forall k | |start| <= k < |log| && log[k].kind != FromQueue ::
         log[k] == EventFor(request, log[k].kind, log[k].iface))
  }

  lemma ProgressAppended(start: seq<Event>, log: seq<Event>, request: Request, sent: set<nat>, pushed: set<nat>,
                         count: int, e: Event)
    requires Progress(start, log, request, sent, pushed, count)
    requires e.kind == FromQueue || e == EventFor(request, e.kind, e.iface)
    requires e.kind == Direct ==> e.iface !in sent
    requires e.kind == ToQueue ==> e.iface !in pushed
    ensures Progress(start, log + [e], request,
                     if e.kind == Direct then sent + {e.iface} else sent,
                     if e.kind == ToQueue then pushed + {e.iface} else pushed,
                     if e.kind == ToQueue then count else count + 1)
  {
    CountsAppended(log, e);
  }

  lemma StartsWithoutProgress(log: seq<Event>, request: Request)
    ensures Progress(log, log, request, {}, {}, 0)
  {
  }

  lemma ServedByNothing(states: seq<State>)
    ensures AreServedFrom(states, states)
  {
  }

  lemma ServedHasNothingNew(first: seq<State>, after: seq<State>)
    requires AreServedFrom(first, after)
    ensures forall i, e | 0 <= i < |after| && e in after[i].entries :: e in first[i].entries
  {
    assert forall i | 0 <= i < |first| :: IsServedFrom(first[i], after[i]);
  }

  lemma TurnServes(first: seq<State>, stage: Stage, stage': Stage, request: Request, round: Round)
    requires AreServedFrom(first, stage.states) && IsTurn(stage, stage', request, round)
    ensures AreServedFrom(first, stage'.states)
  {
    hide AfterOffer, OfferTo;
    forall i | 0 <= i < |first|
      ensures IsServedFrom(first[i], stage'.states[i])
    {
      assert IsServedFrom(first[i], stage.states[i]);
      OfferServes(stage.states[i], request, i in stage.left, round, i);
    }
  }

  lemma TrailBegins(stage: Stage, request: Request, limit: nat, rounds: seq<Round>)
    ensures IsTrail([stage], request, limit, rounds)
  {
  }

  lemma NothingPushed(before: seq<State>, after: seq<State>, request: Request, pushed: set<nat>, round: Round)
    requires ArePushed(before, after, request, pushed, round)
    ensures pushed == {} ==> after == before
  {
  }

  lemma PushedNowhere(states: seq<State>, request: Request, round: Round)
    ensures ArePushed(states, states, request, {}, round)
  {
  }

  lemma PushedNext(first: seq<State>, states: seq<State>, request: Request, pushed: set<nat>, round: Round, i: nat)
    requires ArePushed(first, states, request, pushed, round) && i < |states| && i !in pushed
    ensures ArePushed(first, states[i := PushedTo(states[i], request, round, i)], request, pushed + {i}, round)
  {
  }

  class CanIOManager {
    const queues: seq<CanTxQueue>
    ghost var log: seq<Event>

    ghost predicate Valid()
      reads this, queues
    {
      && (forall i, j | 0 <= i < j < |queues| :: queues[i] != queues[j])
      && (forall i | 0 <= i < |queues| :: Inv(queues[i].Abs()))
      && (forall i | 0 <= i < |queues| :: queues[i].pushes == Count(log, ToQueue, i))
      && (forall i | 0 <= i < |queues| :: |queues[i].sent| == Count(log, FromQueue, i))
    }

    /** The queues' own history agrees with the log throughout. */
    constructor (queues: seq<CanTxQueue>)
      requires forall i, j | 0 <= i < j < |queues| :: queues[i] != queues[j]
      requires forall q | q in queues :: Inv(q.Abs()) && q.pushes == 0 && q.sent == []
      ensures Valid() && this.queues == queues && log == []
    {
      this.queues := queues;
      log := [];
    }

    ghost function States(): (states: seq<State>)
      reads this, queues
      ensures |states| == |queues|
    {
      seq(|queues|, i requires 0 <= i < |queues| reads queues => queues[i].Abs())
    }

    method SendFromTxQueue(i: nat, now: nat, answer: int) returns (res: int)
      requires Valid() && i < |queues|
      modifies this, queues[i]
      ensures Valid()
      ensures States() == old(States())[i := AfterService(old(States())[i], now, answer)]
      ensures res == if AfterPeek(old(States())[i], now).entries != [] then answer else 0
      ensures res <= 0 ==> log == old(log)
      ensures res > 0 ==> exists e | e in old(queues[i].queue) && now <= e.deadline ::
        log == old(log) + [Event(FromQueue, i, e.frame, e.deadline, e.flags)]
    {
      hide Inv, AfterPeek;
      PeekLeaves(queues[i].Abs(), now);
      var entry := queues[i].Peek(now);
      if entry == None {
        return 0;
      }
      res := answer;
      if res > 0 {
        var e := entry.value;
        assert e in old(queues[i].queue);
        log := log + [Event(FromQueue, i, e.frame, e.deadline, e.flags)];
        queues[i].TakeFirst();
        CountsAppended(old(log), Event(FromQueue, i, e.frame, e.deadline, e.flags));
      }
    }

    /** Offers the frame itself to the driver. */
    method SendToIface(i: nat, request: Request, answer: int) returns (res: int)
      requires Valid() && i < |queues|
      modifies this
      ensures Valid() && States() == old(States()) && res == answer
      ensures log == old(log) + if res > 0 then [EventFor(request, Direct, i)] else []
    {
      hide Inv;
      res := answer;
      if res > 0 {
        log := log + [EventFor(request, Direct, i)];
        CountsAppended(old(log), EventFor(request, Direct, i));
      }
    }

    /** One interface that can be written to. */
    method TransmitOn(i: nat, request: Request, wanted: bool, round: Round) returns (res: int, direct: bool)
      requires Valid() && i < |queues|
      modifies this, queues[i]
      ensures Valid()
      ensures States() == old(States())[i := AfterOffer(old(States())[i], request, wanted, round, i)]
      ensures Offer(res, direct) == OfferTo(old(States())[i], request, wanted, round, i)
      ensures res <= 0 ==> log == old(log)
      ensures res > 0 && direct ==> log == old(log) + [EventFor(request, Direct, i)]
      ensures res > 0 && !direct ==> exists e: Event | e.kind == FromQueue && e.iface == i :: log == old(log) + [e]
    {
      LeadsWithTop(i, request.frame);
      hide Valid, States, AfterPeek, LeadsWith;
      res, direct := 0, false;
      if wanted {
        if queues[i].TopPriorityHigherOrEqual(request.frame) {
          res := SendFromTxQueue(i, round.peekTime(i), round.queueAnswer(i));
        }
        if res <= 0 {
          res := SendToIface(i, request, round.directAnswer(i));
          direct := res > 0;
        }
      } else {
        res := SendFromTxQueue(i, round.peekTime(i), round.queueAnswer(i));
      }
    }

    lemma LeadsWithTop(i: nat, frame: CanFrame)
      requires i < |queues|
      ensures queues[i].TopPriorityHigherOrEqual(frame) == LeadsWith(States()[i], frame)
    {
    }

    /** One pass over the interfaces that can be written to. */
    method TransmitRound(request: Request, wanted: set<nat>, writable: set<nat>, round: Round,
                         ghost start: seq<Event>, ghost sent: set<nat>, ghost count0: int)
      returns (left: set<nat>, count: nat)
      requires Valid() && wanted !! sent && (forall i | i in wanted :: i < |queues|)
      requires Progress(start, log, request, sent, {}, count0)
      requires forall i: nat | i < |queues| :: i in writable <==> IsServed(Stage(wanted, States()), round, i)
      modifies this, queues
      ensures Valid() && left <= wanted
      ensures Progress(start, log, request, sent + (wanted - left), {}, count0 + count)
      ensures IsTurn(Stage(wanted, old(States())), Stage(left, States()), request, round)
    {
      hide Valid, Progress, States, AfterOffer, OfferTo, IsServed, IsPartOfTurn, IsTurn;
      ghost var stage := Stage(wanted, States());
      left, count := wanted, 0;
      assert sent + (wanted - left) == sent;
      assert IsPartOfTurn(stage, Stage(left, States()), request, round, writable, 0) by {
        NoPartOfTurn(stage, request, round, writable);
      }
      var i := 0;
      while i < |queues|
        invariant 0 <= i <= |queues| && Valid() && left <= wanted
        invariant Progress(start, log, request, sent + (wanted - left), {}, count0 + count)
        invariant IsPartOfTurn(stage, Stage(left, States()), request, round, writable, i)
      {
        PartOfTurnGrows(stage, Stage(left, States()), request, round, writable, i);
        if i in writable {
          ghost var before := log;
          OnlyWantedIsDirect(States()[i], request, i in left, round, i);
          var res, direct := TransmitOn(i, request, i in left, round);
          if res > 0 {
            ghost var done := sent + (wanted - left);
            if direct {
              ProgressAppended(start, before, request, done, {}, count0 + count, EventFor(request, Direct, i));
              left := left - {i};
              assert sent + (wanted - left) == done + {i};
            } else {
              ghost var e: Event :| e.kind == FromQueue && log == before + [e];
              ProgressAppended(start, before, request, done, {}, count0 + count, e);
            }
            count := count + 1;
          }
        }
        i := i + 1;
      }
      PartsMakeTurn(stage, Stage(left, States()), request, round, writable);
    }

    /** One turn of the loop: the interfaces with something to send that can be written to. */
    method SelectAndTransmit(request: Request, wanted: set<nat>, round: Round,
                             ghost start: seq<Event>, ghost sent: set<nat>, ghost count0: int)
      returns (left: set<nat>, count: nat)
      requires Valid() && wanted !! sent && (forall i | i in wanted :: i < |queues|)
      requires Progress(start, log, request, sent, {}, count0)
      modifies this, queues
      ensures Valid() && left <= wanted
      ensures Progress(start, log, request, sent + (wanted - left), {}, count0 + count)
      ensures IsTurn(Stage(wanted, old(States())), Stage(left, States()), request, round)
    {
      hide Valid, Progress, IsTurn;
      var pending := set i | 0 <= i < |queues| && queues[i].queue != [];
      var writable := round.writable * (wanted + pending);
      left, count := TransmitRound(request, wanted, writable, round, start, sent, count0);
    }

    method PushAll(request: Request, left: set<nat>, round: Round,
                   ghost start: seq<Event>, ghost sent: set<nat>, ghost count: int)
      requires Valid() && forall i | i in left :: i < |queues|
      requires Progress(start, log, request, sent, {}, count)
      modifies this, queues
      ensures Valid() && Progress(start, log, request, sent, left, count)
      ensures ArePushed(old(States()), States(), request, left, round)
    {
      hide Valid, Progress, States, ArePushed, PushedTo;
      PushedNowhere(States(), request, round);
      var i := 0;
      ghost var pushed: set<nat> := {};
      while i < |queues|
        invariant 0 <= i <= |queues| && Valid()
        invariant pushed == set j | j in left && j < i
        invariant Progress(start, log, request, sent, pushed, count)
        invariant ArePushed(old(States()), States(), request, pushed, round)
      {
        if i in left {
          PushedNext(old(States()), States(), request, pushed, round, i);
          PushOn(i, request, round);
          ProgressAppended(start, log[..|log| - 1], request, sent, pushed, count, EventFor(request, ToQueue, i));
          pushed := pushed + {i};
        }
        i := i + 1;
      }
      assert pushed == left;
    }

    method PushOn(i: nat, request: Request, round: Round)
      requires Valid() && i < |queues|
      modifies this, queues[i]
      ensures Valid() && log == old(log) + [EventFor(request, ToQueue, i)]
      ensures States() == old(States())[i := PushedTo(old(States())[i], request, round, i)]
    {
      hide Inv, PushRest;
      PushLeaves(queues[i].Abs(),
                 NewEntry(queues[i].Abs(), request.frame, request.deadline, request.qos, request.flags),
                 round.pushTime(i), round.grants(i));
      queues[i].Push(request.frame, request.deadline, request.qos, request.flags, round.pushTime(i), round.grants(i));
      log := log + [EventFor(request, ToQueue, i)];
      CountsAppended(old(log), EventFor(request, ToQueue, i));
    }

    /**
      * Sends a frame over the interfaces of `ifaceMask` that exist. `rounds` says how driver, clock and pool behave; if
      * it ends before the call does, the result is `None`. `trail` are the stages of the call, turn by turn. On success
      * each interface of the mask has got the frame exactly once, from the driver accepting it or, once the deadline
      * for blocking has come, by a push to its queue, and no other has; the result counts the frames the driver
      * accepted. A caller that blocks up to the deadline of the frame gets it into no queue.
      */
    method Send(request: Request, blockingDeadline: nat, ifaceMask: set<nat>, rounds: seq<Round>)
      returns (result: Option<int>, ghost trail: seq<Stage>)
      requires Valid()
      modifies this, queues
      ensures Valid()
      ensures
        var limit := Min(blockingDeadline, request.deadline);
        && IsTrail(trail, request, limit, rounds)
        && trail[0] == Stage(set i | i in ifaceMask && i < |queues|, old(States()))
      ensures
        var limit, n := Min(blockingDeadline, request.deadline), |trail| - 1;
        var left, sent := trail[n].left, trail[0].left - trail[n].left;
        && left <= trail[0].left
        && if result.Some? && result.value >= 0 then
             && Progress(old(log), log, request, sent, left, result.value)
             && (left == {} ==> States() == trail[n].states)
             && (left != {} ==>
                  n > 0 && rounds[n - 1].endTime >= limit
                  && ArePushed(trail[n].states, States(), request, left, rounds[n - 1]))
           else
             && States() == trail[n].states && left != {} && (n > 0 ==> rounds[n - 1].endTime < limit)
             && (exists count :: Progress(old(log), log, request, sent, {}, count))
             && if n == |rounds| then result == None else result == Some(-ERR_DRIVER) && rounds[n].selected < 0
      ensures blockingDeadline >= request.deadline && (forall round | round in rounds :: ClockAdvances(round)) ==>
        forall i, e | 0 <= i < |queues| && e in States()[i].entries :: e in old(States())[i].entries
    {
      hide Valid, Progress, ClockAdvances, IsTurn, IsTrail, AreServedFrom, States, ArePushed;
      var mask := set i | i in ifaceMask && i < |queues|;
      var left := mask;
      var limit := if blockingDeadline > request.deadline then request.deadline else blockingDeadline;
      var retval := 0;
      var turn := 0;
      ghost var sent: set<nat> := {};
      trail := [Stage(mask, States())];
      ServedByNothing(States());
      TrailBegins(trail[0], request, limit, rounds);
      assert Progress(old(log), log, request, {}, {}, 0) by { StartsWithoutProgress(log, request); }
      while left != {}
        invariant turn <= |rounds| && Valid() && left <= mask && sent == mask - left && retval >= 0
        invariant Progress(old(log), log, request, sent, {}, retval)
        invariant |trail| == turn + 1 && trail[0] == Stage(mask, old(States())) && trail[turn] == Stage(left, States())
        invariant IsTrail(trail, request, limit, rounds) && AreServedFrom(old(States()), States())
        invariant turn > 0 ==> rounds[turn - 1].endTime < limit
        decreases |rounds| - turn
      {
        if turn == |rounds| {
          ServedHasNothingNew(old(States()), States());
          return None, trail;
        }
        var round := rounds[turn];
        if round.selected < 0 {
          ServedHasNothingNew(old(States()), States());
          return Some(-ERR_DRIVER), trail;
        }
        ghost var stage := Stage(left, States());
        var count;
        left, count := SelectAndTransmit(request, left, round, old(log), sent, retval);
        assert sent + (stage.left - left) == mask - left;
        sent := mask - left;
        retval := retval + count;
        TurnServes(old(States()), stage, Stage(left, States()), request, round);
        TrailGrows(trail, Stage(left, States()), request, limit, rounds);
        trail := trail + [Stage(left, States())];
        turn := turn + 1;
        if round.endTime >= limit {
          PushAll(request, left, round, old(log), sent, retval);
          assert round in rounds;
          if blockingDeadline >= request.deadline && ClockAdvances(round) {
            LatePushesAddNothing(old(States()), trail[turn].states, States(), request, left, round);
          }
          NothingPushed(trail[turn].states, States(), request, left, round);
          return Some(retval), trail;
        }
      }
      ServedHasNothingNew(old(States()), States());
      result := Some(retval);
    }
  }
}
