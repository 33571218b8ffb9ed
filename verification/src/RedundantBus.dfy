/**
  * Reception over redundant interfaces. Every frame carries an absolute transfer index of which only the five low bits
  * travel on the wire. Although transfer identifiers wrap around and every interface delivers its own copy, no
  * transfer is delivered twice and none is delivered after a later one, as long as no older transfer looks newer.
  */
module RedundantBus {
  import opened Transfer
  import opened Options
  import opened Frames
  import opened Receiver

  const NUM_IFACES := 3

  /** A frame together with the absolute index of its transfer. */
  datatype Arrival = Arrival(rx: RxFrame, memory: Memory, index: nat)

  /** A receiver, the absolute index it expects, and the index each interface has reached. */
  datatype Bus = Bus(state: ReceiverState, buffer: Buffer, expected: nat, reached: map<nat, nat>)

  const IDLE := Bus(FRESH_STATE, None, 0, map[])

  /**
    * What the network promises about a frame: its identifier is the wrapped index, and its interface delivers in
    * order.
    */
  predicate IsInOrder(b: Bus, a: Arrival)
  {
    && a.rx.iface < NUM_IFACES
    && a.rx.frame.tid == a.index % TRANSFER_ID_MODULUS
    && (a.rx.iface in b.reached ==> b.reached[a.rx.iface] <= a.index)
  }

  /**
    * What a network within the design limits promises besides: the frame is no further than half the identifier range
    * from what is expected, and the receiver has not timed out.
    */
  predicate Admissible(b: Bus, a: Arrival)
  {
    && IsInOrder(b, a)
    && (IsInitialized(b.state) ==>
         && b.expected - TRANSFER_ID_HALF <= a.index < b.expected + TRANSFER_ID_HALF
         && !IsTimedOut(b.state, a.rx.monotonic))
  }

  predicate Restarts(b: Bus, a: Arrival) { HasUsableTime(b.state, a.rx) && NeedsRestart(b.state, a.rx) }

  /** The index that the receiver turns to: that of a frame that restarts it or is taken, or the one expected so far. */
  function TurnsTo(b: Bus, a: Arrival): nat
  {
    if Restarts(b, a) || (HasUsableTime(b.state, a.rx) && IsExpected(b.state, a.rx)) then a.index else b.expected
  }

  /** The index that the receiver's wrapped identifier stands for after its reaction. */
  function ExpectedAfter(b: Bus, a: Arrival, o: Outcome): nat
  {
    var base := TurnsTo(b, a);
    if o.state.tid == base % TRANSFER_ID_MODULUS then base else base + 1
  }

  function Step(b: Bus, a: Arrival, maxSize: nat): (b': Bus)
    requires Consistent(b.state, b.buffer, maxSize)
    ensures Consistent(b'.state, b'.buffer, maxSize)
  {
    ReactionIsConsistent(b.state, a.rx, b.buffer, maxSize, a.memory);
    var o := Reaction(b.state, a.rx, b.buffer, maxSize, a.memory);
    Bus(o.state, o.buffer, ExpectedAfter(b, a, o), b.reached[a.rx.iface as int := a.index])
  }

  /** The transfer that a reaction completes, if any. */
  function Delivery(b: Bus, a: Arrival, maxSize: nat): seq<nat>
    requires Consistent(b.state, b.buffer, maxSize)
  {
    if Reaction(b.state, a.rx, b.buffer, maxSize, a.memory).result == NotComplete then [] else [a.index]
  }

  ghost predicate Inv(b: Bus, maxSize: nat)
  {
    && Consistent(b.state, b.buffer, maxSize)
    && (IsInitialized(b.state) ==>
          && b.state.tid == b.expected % TRANSFER_ID_MODULUS
          && b.state.iface in b.reached && b.expected <= b.reached[b.state.iface] + 1)
  }

  // ----- When the receiver turns back -----

  /**
    * A frame of an older transfer that the receiver takes for a newer one: any after a timeout; otherwise one that
    * starts a transfer, late enough for an interface switch, and is ahead modulo 32.
    */
  predicate LooksNewer(b: Bus, a: Arrival)
  {
    && IsInitialized(b.state) && HasUsableTime(b.state, a.rx) && a.index < b.expected
    && (|| IsTimedOut(b.state, a.rx.monotonic)
        || (&& a.rx.frame.startOfTransfer
            && a.rx.monotonic - b.state.thisTransferTs > b.state.intervalMsec * 1000
            && (a.index - b.expected) % TRANSFER_ID_MODULUS < TRANSFER_ID_HALF))
  }

  lemma DistanceOfOlder(expected: nat, index: nat)
    requires index < expected
    ensures ForwardDistance(expected % TRANSFER_ID_MODULUS, index % TRANSFER_ID_MODULUS) < TRANSFER_ID_HALF <==>
            (index - expected) % TRANSFER_ID_MODULUS < TRANSFER_ID_HALF
    ensures index + 1 == expected ==> ForwardDistance(index % TRANSFER_ID_MODULUS, expected % TRANSFER_ID_MODULUS) == 1
    ensures (index - expected) % TRANSFER_ID_MODULUS < TRANSFER_ID_HALF ==> index + TRANSFER_ID_HALF < expected
  {
    ForwardDistanceOfIndices(expected, index);
    ForwardDistanceOfIndices(index, expected);
  }

  /** On the interface that the receiver follows, an older frame is that of the last transfer. */
  lemma OlderOnSameInterface(b: Bus, a: Arrival, maxSize: nat)
    requires Inv(b, maxSize) && IsInOrder(b, a) && IsInitialized(b.state)
    requires a.index < b.expected && a.rx.iface == b.state.iface
    ensures a.index + 1 == b.expected && a.rx.frame.tid != b.state.tid
  {
  }

  /**
    * The receiver turns back exactly if a frame of an older transfer looks newer; within the design limits none does.
    */
  lemma TurnsBackIff(b: Bus, a: Arrival, maxSize: nat)
    requires Inv(b, maxSize) && IsInOrder(b, a) && IsInitialized(b.state)
    ensures TurnsTo(b, a) < b.expected <==> LooksNewer(b, a)
    ensures LooksNewer(b, a) ==> !Admissible(b, a)
  {
    hide ForwardDistance;
    if a.index < b.expected {
      DistanceOfOlder(b.expected, a.index);
      if a.rx.iface == b.state.iface {
        OlderOnSameInterface(b, a, maxSize);
      }
    }
  }

  lemma ReceiveMovesTid(s: ReceiverState, f: RxFrame, buffer: Buffer, maxSize: nat, memory: Memory)
    requires Consistent(s, buffer, maxSize) && !IsGarbled(f.frame)
    ensures
      var o := Receive(s, f, buffer, maxSize, memory);
      && (o.state.tid == s.tid || o.state.tid == Increment(s.tid)) && o.state.iface == s.iface
      && (o.result != NotComplete ==> o.state.tid == Increment(s.tid))
  {
    hide AppendedBuffer, AveragedInterval, CrcField, IsStored, Effective, Increment;
  }

  /** The identifier after a reaction is the one of the transfer that was looked at, or the next. */
  lemma ReactionMovesTid(s: ReceiverState, f: RxFrame, buffer: Buffer, maxSize: nat, memory: Memory)
    requires Consistent(s, buffer, maxSize)
    ensures
      var o := Reaction(s, f, buffer, maxSize, memory);
      var restart := HasUsableTime(s, f) && NeedsRestart(s, f);
      var base := if restart then f.frame.tid else s.tid;
      && (o.state.tid == base || o.state.tid == Increment(base))
      && o.state.iface == (if restart then f.iface % 4 else s.iface)
      && (o.state.tid != base ==> f.frame.tid == base && o.state.iface == f.iface % 4)
      && (o.state.tid != base ==> restart || (HasUsableTime(s, f) && IsExpected(s, f)))
      && (o.result != NotComplete ==> o.state.tid == Increment(base))
  {
    hide Receive, NeedsRestart, ValidationErrors;
    var restart := HasUsableTime(s, f) && NeedsRestart(s, f);
    var s1 := if restart then Restarted(s, f) else s;
    if IsExpected(s1, f) {
      ReceiveMovesTid(Validated(s1, f), f, if restart then None else buffer, maxSize, memory);
    }
  }

  lemma IncrementIsNextIndex(n: nat)
    ensures Increment(n % TRANSFER_ID_MODULUS) == (n + 1) % TRANSFER_ID_MODULUS
    ensures Increment(n % TRANSFER_ID_MODULUS) != n % TRANSFER_ID_MODULUS
  {
  }

  /** The least index that may still be delivered. */
  function Floor(b: Bus): nat { if IsInitialized(b.state) then b.expected else 0 }

  /** What an arrival does to the expectation. */
  lemma StepExpects(b: Bus, a: Arrival, maxSize: nat)
    requires Inv(b, maxSize) && IsInOrder(b, a)
    ensures
      var b' := Step(b, a, maxSize);
      && Inv(b', maxSize)
      && (IsInitialized(b.state) ==> IsInitialized(b'.state))
      && TurnsTo(b, a) <= b'.expected <= TurnsTo(b, a) + 1
      && (Delivery(b, a, maxSize) != [] ==>
           IsInitialized(b'.state) && TurnsTo(b, a) == a.index && b'.expected == a.index + 1)
  {
    hide Reaction, NeedsRestart, HasUsableTime;
    ReactionMovesTid(b.state, a.rx, b.buffer, maxSize, a.memory);
    ReactionIsConsistent(b.state, a.rx, b.buffer, maxSize, a.memory);
    IncrementIsNextIndex(TurnsTo(b, a));
    if !IsInitialized(b.state) {
      UninitializedRestarts(b.state, a.rx);
    }
  }

  /** Unless an older transfer looks newer, an arrival moves the expectation forward only, and past what it delivers. */
  lemma StepMovesForward(b: Bus, a: Arrival, maxSize: nat)
    requires Inv(b, maxSize) && IsInOrder(b, a) && !LooksNewer(b, a)
    ensures Inv(Step(b, a, maxSize), maxSize)
    ensures Floor(b) <= Floor(Step(b, a, maxSize))
    ensures Delivery(b, a, maxSize) != [] ==> Floor(b) <= a.index < Floor(Step(b, a, maxSize))
  {
    hide Step, Delivery, TurnsTo, LooksNewer;
    StepExpects(b, a, maxSize);
    if IsInitialized(b.state) {
      TurnsBackIff(b, a, maxSize);
    }
  }

  /** Without a timeout, an expectation goes back exactly if an older transfer looks newer. */
  lemma GoesBackIff(b: Bus, a: Arrival, maxSize: nat)
    requires Inv(b, maxSize) && IsInOrder(b, a) && IsInitialized(b.state) && !IsTimedOut(b.state, a.rx.monotonic)
    ensures Step(b, a, maxSize).expected < b.expected <==> LooksNewer(b, a)
  {
    hide Step, Delivery, TurnsTo, HasUsableTime;
    StepExpects(b, a, maxSize);
    TurnsBackIff(b, a, maxSize);
    TurnsToIndexOrNot(b, a);
    if a.index < b.expected {
      DistanceOfOlder(b.expected, a.index);
    }
  }

  lemma TurnsToIndexOrNot(b: Bus, a: Arrival)
    ensures TurnsTo(b, a) in {a.index, b.expected}
  {
  }

  lemma UninitializedRestarts(s: ReceiverState, f: RxFrame)
    requires !IsInitialized(s)
    ensures NeedsRestart(s, f)
  {
  }

  // ----- Runs -----

  predicate AdmissibleRun(b: Bus, arrivals: seq<Arrival>, maxSize: nat)
    requires Consistent(b.state, b.buffer, maxSize)
    decreases |arrivals|
  {
    || arrivals == []
    || (Admissible(b, arrivals[0]) && AdmissibleRun(Step(b, arrivals[0], maxSize), arrivals[1..], maxSize))
  }

  function Delivered(b: Bus, arrivals: seq<Arrival>, maxSize: nat): seq<nat>
    requires Consistent(b.state, b.buffer, maxSize)
    decreases |arrivals|
  {
    if arrivals == [] then []
    else Delivery(b, arrivals[0], maxSize) + Delivered(Step(b, arrivals[0], maxSize), arrivals[1..], maxSize)
  }

  ghost predicate StrictlyIncreasing(s: seq<nat>)
  {
    forall i, j | 0 <= i < j < |s| :: s[i] < s[j]
  }

  /** In order on every interface, and at no time does an older transfer look newer. */
  predicate OrderlyRun(b: Bus, arrivals: seq<Arrival>, maxSize: nat)
    requires Consistent(b.state, b.buffer, maxSize)
    decreases |arrivals|
  {
    || arrivals == []
    || (&& IsInOrder(b, arrivals[0]) && !LooksNewer(b, arrivals[0])
        && OrderlyRun(Step(b, arrivals[0], maxSize), arrivals[1..], maxSize))
  }

  /**
    * However far the interfaces are apart and however long the pauses: as long as no older transfer looks newer,
    * transfers are delivered in order and at most once.
    */
  lemma {:induction false} OrderlyRunDeliversInOrder(b: Bus, arrivals: seq<Arrival>, maxSize: nat)
    requires Inv(b, maxSize) && OrderlyRun(b, arrivals, maxSize)
    ensures StrictlyIncreasing(Delivered(b, arrivals, maxSize))
    ensures forall n | n in Delivered(b, arrivals, maxSize) :: Floor(b) <= n
    decreases |arrivals|
  {
    hide Step, Delivery, IsInOrder, LooksNewer;
    if arrivals != [] {
      var a := arrivals[0];
      var b' := Step(b, a, maxSize);
      StepMovesForward(b, a, maxSize);
      OrderlyRunDeliversInOrder(b', arrivals[1..], maxSize);
      DeliveryIsIndex(b, a, maxSize);
      PrependedInOrder(Delivery(b, a, maxSize), Delivered(b', arrivals[1..], maxSize), Floor(b'));
    }
  }

  /** Within the design limits no run is out of order. */
  lemma {:induction false} AdmissibleIsOrderly(b: Bus, arrivals: seq<Arrival>, maxSize: nat)
    requires Inv(b, maxSize) && AdmissibleRun(b, arrivals, maxSize)
    ensures OrderlyRun(b, arrivals, maxSize)
    decreases |arrivals|
  {
    hide Step, LooksNewer;
    if arrivals != [] {
      var a := arrivals[0];
      assert !LooksNewer(b, a) by {
        if IsInitialized(b.state) {
          TurnsBackIff(b, a, maxSize);
        } else {
          OnlyInitializedLooksBack(b, a);
        }
      }
      StepMovesForward(b, a, maxSize);
      AdmissibleIsOrderly(Step(b, a, maxSize), arrivals[1..], maxSize);
    }
  }

  lemma OnlyInitializedLooksBack(b: Bus, a: Arrival)
    ensures LooksNewer(b, a) ==> IsInitialized(b.state)
  {
  }

  /** Over every admissible interleaving of the interfaces, transfers are delivered in order and at most once. */
  lemma DeliveredInOrder(b: Bus, arrivals: seq<Arrival>, maxSize: nat)
    requires Inv(b, maxSize) && AdmissibleRun(b, arrivals, maxSize)
    ensures StrictlyIncreasing(Delivered(b, arrivals, maxSize))
    ensures forall n | n in Delivered(b, arrivals, maxSize) :: Floor(b) <= n
  {
    AdmissibleIsOrderly(b, arrivals, maxSize);
    OrderlyRunDeliversInOrder(b, arrivals, maxSize);
  }

  lemma PrependedInOrder(first: seq<nat>, rest: seq<nat>, floor: nat)
    requires |first| <= 1 && StrictlyIncreasing(rest)
    requires forall n | n in rest :: floor <= n
    requires first != [] ==> first[0] < floor
    ensures StrictlyIncreasing(first + rest)
  {
    assert forall i | 0 <= i < |rest| :: rest[i] in rest;
  }

  lemma DeliveryIsIndex(b: Bus, a: Arrival, maxSize: nat)
    requires Consistent(b.state, b.buffer, maxSize)
    ensures Delivery(b, a, maxSize) == [] || Delivery(b, a, maxSize) == [a.index]
  {
  }

  /** The corollary for a receiver that starts from scratch. */
  lemma IdleBusDeliversInOrder(arrivals: seq<Arrival>, maxSize: nat)
    requires AdmissibleRun(IDLE, arrivals, maxSize)
    ensures StrictlyIncreasing(Delivered(IDLE, arrivals, maxSize))
  {
    DeliveredInOrder(IDLE, arrivals, maxSize);
  }

  // ----- The window is needed -----

  /** A complete single-frame transfer. */
  function Single(index: nat, iface: Octet, monotonic: nat): Arrival
  {
    var frame := Frame(0, MessageBroadcast, 0, 1, 0, index % TRANSFER_ID_MODULUS, true, true, false, []);
    Arrival(RxFrame(frame, monotonic, 0, iface), Memory(true, 0), index)
  }

  const NEWER := Single(19, 0, 1)
  const NEWEST := Single(20, 0, 2)
  const OLD := Single(4, 1, 875_003)

  /** The receiver after the first and the second transfer. */
  const AFTER_NEWER := Bus(FRESH_STATE.(prevTransferTs := 1, thisTransferTs := 1, tid := 20, iface := 0),
                          None, 20, map[0 := 19])
  const AFTER_NEWEST := Bus(FRESH_STATE.(prevTransferTs := 2, thisTransferTs := 2, intervalMsec := 875, tid := 21,
                                         iface := 0),
                           None, 21, map[0 := 20])

  lemma NewerIsDelivered()
    ensures Step(IDLE, NEWER, 0) == AFTER_NEWER && Delivery(IDLE, NEWER, 0) == [19]
  {
  }

  lemma NewestIsDelivered()
    ensures Consistent(AFTER_NEWER.state, AFTER_NEWER.buffer, 0)
    ensures Step(AFTER_NEWER, NEWEST, 0) == AFTER_NEWEST && Delivery(AFTER_NEWER, NEWEST, 0) == [20]
  {
  }

  lemma OldIsDelivered()
    ensures Consistent(AFTER_NEWEST.state, AFTER_NEWEST.buffer, 0)
    ensures !IsTimedOut(AFTER_NEWEST.state, OLD.rx.monotonic)
    ensures AFTER_NEWEST.expected == OLD.index + TRANSFER_ID_HALF + 1
    ensures Delivery(AFTER_NEWEST, OLD, 0) == [4]
  {
  }

  /**
    * One step outside the window, order is lost: an interface that lags by seventeen transfers takes the receiver back
    * once the interface switch delay has passed, and an old transfer is delivered after newer ones.
    */
  lemma LaggingInterfaceGoesBack()
    ensures Delivered(IDLE, [NEWER, NEWEST, OLD], 0) == [19, 20, 4]
  {
    hide Step, Delivery;
    NewerIsDelivered();
    NewestIsDelivered();
    OldIsDelivered();
    assert [NEWER, NEWEST, OLD][1..] == [NEWEST, OLD] && [NEWEST, OLD][1..] == [OLD] && [OLD][1..] == [];
    assert Delivered(AFTER_NEWEST, [OLD], 0) == [4] + Delivered(Step(AFTER_NEWEST, OLD, 0), [], 0);
    assert Delivered(AFTER_NEWER, [NEWEST, OLD], 0) == [20] + Delivered(AFTER_NEWEST, [OLD], 0);
  }
}
