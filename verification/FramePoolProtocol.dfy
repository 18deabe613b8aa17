/** The two threads of ringbuffer.c as a state machine of their lock, test, wait and signal actions. */
module FramePoolProtocol {
  import opened Prelude

  datatype Who = Producer | Consumer

  /** Where a thread is: popping a frame, using it, or pushing it on. */
  datatype Pc =
    | PopLock | PopHold | PopWait | PopWoken | PopSignal | PopUnlock
    | Work | Working
    | PushLock | PushHold | PushWait | PushWoken | PushSignal | PushUnlock

  datatype Thread = Thread(pc: Pc, frame: Option<nat>)

  datatype Queue = Queue(items: seq<nat>, owner: Option<Who>)

  /** What a frame's buffer holds: nothing yet, an image being written, or the n-th captured image. */
  datatype Payload = Blank | Torn | Image(n: nat)

  datatype State = State(free: Queue, used: Queue, producer: Thread, consumer: Thread,
                         content: seq<Payload>, captured: nat, delivered: seq<Payload>)

  /** After `ringbuffer_init`: all five frames are free. */
  const INIT := State(Queue([0, 1, 2, 3, 4], None), Queue([], None), Thread(PopLock, None), Thread(PopLock, None),
                      [Blank, Blank, Blank, Blank, Blank], 0, [])

  predicate Popping(pc: Pc) {
    pc.PopLock? || pc.PopHold? || pc.PopWait? || pc.PopWoken? || pc.PopSignal? || pc.PopUnlock?
  }

  predicate Pushing(pc: Pc) {
    pc.PushLock? || pc.PushHold? || pc.PushWait? || pc.PushWoken? || pc.PushSignal? || pc.PushUnlock?
  }

  function ThreadOf(s: State, who: Who): Thread {
    if who == Producer then s.producer else s.consumer
  }

  function WithThread(s: State, who: Who, t: Thread): State {
    if who == Producer then s.(producer := t) else s.(consumer := t)
  }

  /** The queue `who` pops from, or pushes to. */
  function QueueOf(s: State, who: Who, pop: bool): Queue {
    if (who == Producer) == pop then s.free else s.used
  }

  function WithQueue(s: State, who: Who, pop: bool, q: Queue): State {
    if (who == Producer) == pop then s.(free := q) else s.(used := q)
  }

  function Other(who: Who): Who {
    if who == Producer then Consumer else Producer
  }

  // ----- the actions -----

  /** Taking the queue's lock, at first or on the way out of a wait. */
  function Lock(s: State, who: Who, pop: bool): Option<State> {
    var q := QueueOf(s, who, pop);
    if q.owner.Some? then None
    else
      var t := ThreadOf(s, who).(pc := if pop then PopHold else PushHold);
      Some(WithQueue(WithThread(s, who, t), who, pop, q.(owner := Some(who))))
  }

  /** The loop test of `queue_pop`: wait, releasing the lock, or take the oldest frame. */
  function TakeOrWait(s: State, who: Who): State {
    var q := QueueOf(s, who, true);
    if q.items == [] then
      WithQueue(WithThread(s, who, ThreadOf(s, who).(pc := PopWait)), who, true, q.(owner := None))
    else
      WithQueue(WithThread(s, who, Thread(PopSignal, Some(q.items[0]))), who, true, q.(items := q.items[1..]))
  }

  /** The loop test of `queue_push`: wait, releasing the lock, or add the frame. */
  function PutOrWait(s: State, who: Who): State {
    var q, t := QueueOf(s, who, false), ThreadOf(s, who);
    if |q.items| >= 5 || t.frame.None? then
      WithQueue(WithThread(s, who, t.(pc := PushWait)), who, false, q.(owner := None))
    else
      WithQueue(WithThread(s, who, Thread(PushSignal, None)), who, false, q.(items := q.items + [t.frame.value]))
  }

  /** `pthread_cond_signal`: the other thread wakes if it waits on the same queue. */
  function Signal(s: State, who: Who, pop: bool): State {
    var other := ThreadOf(s, Other(who));
    // the queue `who` pops from is the one the other thread pushes to
    var woken :=
      if pop && other.pc.PushWait? then other.(pc := PushWoken)
      else if !pop && other.pc.PopWait? then other.(pc := PopWoken)
      else other;
    WithThread(WithThread(s, Other(who), woken), who, ThreadOf(s, who).(pc := if pop then PopUnlock else PushUnlock))
  }

  function Unlock(s: State, who: Who, pop: bool): State {
    var t := ThreadOf(s, who).(pc := if pop then Work else PopLock);
    WithQueue(WithThread(s, who, t), who, pop, QueueOf(s, who, pop).(owner := None))
  }

  /** Using the frame: filling it takes two steps, with the content torn in between; sending reads it. */
  function Use(s: State, who: Who): State {
    var t := ThreadOf(s, who);
    var s1 := WithThread(s, who, t.(pc := if t.pc.Work? then Working else PushLock));
    if t.frame.None? || t.frame.value >= |s.content| then s1
    else if who == Producer then
      if t.pc.Work? then s1.(content := s.content[t.frame.value := Torn])
      else s1.(content := s.content[t.frame.value := Image(s.captured)], captured := s.captured + 1)
    else
      if t.pc.Work? then s1 else s1.(delivered := s.delivered + [s.content[t.frame.value]])
  }

  /** The next action of thread `who`, or none if it is blocked. */
  function Step(s: State, who: Who): Option<State> {
    match ThreadOf(s, who).pc
    case PopLock | PopWoken => Lock(s, who, true)
    case PopHold => Some(TakeOrWait(s, who))
    case PopWait => None
    case PopSignal => Some(Signal(s, who, true))
    case PopUnlock => Some(Unlock(s, who, true))
    case Work | Working => Some(Use(s, who))
    case PushLock | PushWoken => Lock(s, who, false)
    case PushHold => Some(PutOrWait(s, who))
    case PushWait => None
    case PushSignal => Some(Signal(s, who, false))
    case PushUnlock => Some(Unlock(s, who, false))
  }

  /** A spurious return from `pthread_cond_wait`. */
  function Spurious(s: State, who: Who): Option<State> {
    var t := ThreadOf(s, who);
    if t.pc.PopWait? then Some(WithThread(s, who, t.(pc := PopWoken)))
    else if t.pc.PushWait? then Some(WithThread(s, who, t.(pc := PushWoken)))
    else None
  }

  datatype Action = Run(who: Who) | SpuriousWake(who: Who)

  function Next(s: State, a: Action): Option<State> {
    match a
    case Run(who) => Step(s, who)
    case SpuriousWake(who) => Spurious(s, who)
  }

  /** The state after a schedule, if every action in it was possible. */
  function Execute(schedule: seq<Action>): Option<State> {
    if schedule == [] then Some(INIT)
    else
      var before := Execute(schedule[..|schedule| - 1]);
      if before.None? then None else Next(before.value, schedule[|schedule| - 1])
  }

  // ----- the invariant -----

  predicate Holds(pc: Pc) {
    pc.PopHold? || pc.PopSignal? || pc.PopUnlock? || pc.PushHold? || pc.PushSignal? || pc.PushUnlock?
  }

  predicate Carries(pc: Pc) {
    pc.PopSignal? || pc.PopUnlock? || pc.Work? || pc.Working? || pc.PushLock? || pc.PushHold?
  }

  /** The lock of a queue is held exactly by the thread inside the queue's critical section. */
  predicate Locks(s: State) {
    && (s.free.owner == Some(Producer) <==> Holds(s.producer.pc) && Popping(s.producer.pc))
    && (s.free.owner == Some(Consumer) <==> Holds(s.consumer.pc) && Pushing(s.consumer.pc))
    && (s.used.owner == Some(Producer) <==> Holds(s.producer.pc) && Pushing(s.producer.pc))
    && (s.used.owner == Some(Consumer) <==> Holds(s.consumer.pc) && Popping(s.consumer.pc))
  }

  function Carried(frame: Option<nat>): multiset<nat> {
    if frame.Some? then multiset{frame.value} else multiset{}
  }

  /** The five frames, each once, over the two queues and the two threads. */
  predicate Shared(free: seq<nat>, used: seq<nat>, producer: Option<nat>, consumer: Option<nat>) {
    multiset(free) + multiset(used) + Carried(producer) + Carried(consumer) == multiset{0, 1, 2, 3, 4}
  }

  /** Each frame is in exactly one place: a queue or a thread's hands. */
  predicate OnePlace(s: State) {
    && Shared(s.free.items, s.used.items, s.producer.frame, s.consumer.frame)
    && (s.producer.frame.Some? <==> Carries(s.producer.pc))
    && (s.consumer.frame.Some? <==> Carries(s.consumer.pc))
  }

  /** A thread waits only on an empty queue, unless the other is about to signal; pushing never waits. */
  predicate Waits(s: State) {
    && (s.producer.pc.PopWait? ==> s.free.items == [] || s.consumer.pc.PushSignal?)
    && (s.consumer.pc.PopWait? ==> s.used.items == [] || s.producer.pc.PushSignal?)
    && !s.producer.pc.PushWait? && !s.producer.pc.PushWoken? && !s.consumer.pc.PushWait? && !s.consumer.pc.PushWoken?
  }

  /** The frames on their way to the consumer, oldest first. */
  function InFlight(s: State): seq<nat> {
    (if s.consumer.frame.Some? && !Pushing(s.consumer.pc) then [s.consumer.frame.value] else [])
    + s.used.items
    + (if s.producer.frame.Some? && Pushing(s.producer.pc) then [s.producer.frame.value] else [])
  }

  /** Images are delivered in order, and those on their way follow without a gap. */
  predicate Ordered(flight: seq<nat>, content: seq<Payload>, captured: nat, delivered: seq<Payload>) {
    && |content| == 5
    && captured == |delivered| + |flight|
    && (forall i | 0 <= i < |delivered| :: delivered[i] == Image(i))
    && (forall i | 0 <= i < |flight| :: flight[i] < 5 && content[flight[i]] == Image(|delivered| + i))
  }

  predicate InOrder(s: State) {
    Ordered(InFlight(s), s.content, s.captured, s.delivered)
  }

  predicate Invariant(s: State) {
    Locks(s) && OnePlace(s) && Waits(s) && InOrder(s)
  }

  /** The five frames leave no room for a sixth in one queue. */
  lemma Room(free: seq<nat>, used: seq<nat>, producer: Option<nat>, consumer: Option<nat>)
    requires Shared(free, used, producer, consumer)
    ensures |free| + |used| + |Carried(producer)| + |Carried(consumer)| == 5
  {
    assert |multiset{0, 1, 2, 3, 4}| == 5;
  }

  lemma InitInvariant()
    ensures Invariant(INIT)
  {
    InitShared();
    hide Shared;
  }

  lemma InitShared()
    ensures Shared(INIT.free.items, INIT.used.items, INIT.producer.frame, INIT.consumer.frame)
  {
    assert multiset([0, 1, 2, 3, 4]) == multiset{0, 1, 2, 3, 4};
  }

  lemma LockKeeps(s: State, who: Who, pop: bool)
    requires Invariant(s) && Lock(s, who, pop).Some?
    requires pop ==> ThreadOf(s, who).pc.PopLock? || ThreadOf(s, who).pc.PopWoken?
    requires !pop ==> ThreadOf(s, who).pc.PushLock? || ThreadOf(s, who).pc.PushWoken?
    ensures Invariant(Lock(s, who, pop).value)
  {
    hide Ordered, Shared;
    assert InFlight(Lock(s, who, pop).value) == InFlight(s);
  }

  lemma UnlockKeeps(s: State, who: Who, pop: bool)
    requires Invariant(s)
    requires ThreadOf(s, who).pc == if pop then PopUnlock else PushUnlock
    ensures Invariant(Unlock(s, who, pop))
  {
    hide Ordered, Shared;
    assert InFlight(Unlock(s, who, pop)) == InFlight(s);
  }

  lemma SignalKeeps(s: State, who: Who, pop: bool)
    requires Invariant(s)
    requires ThreadOf(s, who).pc == if pop then PopSignal else PushSignal
    ensures Invariant(Signal(s, who, pop))
  {
    hide Ordered, Shared;
    assert InFlight(Signal(s, who, pop)) == InFlight(s);
  }

  lemma SpuriousKeeps(s: State, who: Who)
    requires Invariant(s) && Spurious(s, who).Some?
    ensures Invariant(Spurious(s, who).value)
  {
    hide Ordered, Shared;
    assert InFlight(Spurious(s, who).value) == InFlight(s);
  }

  /** Moving a frame between an end of the free queue and a thread. */
  lemma FreeShares(free: seq<nat>, used: seq<nat>, f: nat, other: Option<nat>)
    ensures Shared([f] + free, used, None, other) == Shared(free, used, Some(f), other)
    ensures Shared(free + [f], used, other, None) == Shared(free, used, other, Some(f))
  {
    assert multiset([f] + free) == multiset(free + [f]) == multiset(free) + multiset{f};
    MoveOver(multiset(free), multiset(used), multiset{f}, Carried(other));
  }

  /** Moving a frame between an end of the used queue and a thread. */
  lemma UsedShares(free: seq<nat>, used: seq<nat>, f: nat, other: Option<nat>)
    ensures Shared(free, [f] + used, other, None) == Shared(free, used, other, Some(f))
    ensures Shared(free, used + [f], None, other) == Shared(free, used, Some(f), other)
  {
    assert multiset([f] + used) == multiset(used + [f]) == multiset(used) + multiset{f};
    MoveOver(multiset(used), multiset(free), multiset{f}, Carried(other));
  }

  lemma MoveOver(q: multiset<nat>, r: multiset<nat>, f: multiset<nat>, other: multiset<nat>)
    ensures (q + f) + r + multiset{} + other == q + r + f + other
    ensures (q + f) + r + other + multiset{} == q + r + other + f
    ensures r + (q + f) + multiset{} + other == r + q + f + other
    ensures r + (q + f) + other + multiset{} == r + q + other + f
  {
  }

  lemma TakeOrWaitKeeps(s: State, who: Who)
    requires Invariant(s) && ThreadOf(s, who).pc.PopHold?
    ensures Invariant(TakeOrWait(s, who))
  {
    hide Ordered, Shared;
    var q := QueueOf(s, who, true).items;
    if q != [] {
      assert q == [q[0]] + q[1..];
      if who == Producer {
        FreeShares(q[1..], s.used.items, q[0], s.consumer.frame);
      } else {
        UsedShares(s.free.items, q[1..], q[0], s.producer.frame);
      }
    }
    assert InFlight(TakeOrWait(s, who)) == InFlight(s);
  }

  lemma PutUsedKeeps(s: State, f: nat)
    requires Invariant(s) && s.producer == Thread(PushHold, Some(f))
    ensures Invariant(s.(used := s.used.(items := s.used.items + [f]), producer := Thread(PushSignal, None)))
  {
    hide Ordered, Shared;
    var t := s.(used := s.used.(items := s.used.items + [f]), producer := Thread(PushSignal, None));
    UsedShares(s.free.items, s.used.items, f, s.consumer.frame);
    assert InFlight(t) == InFlight(s);
  }

  lemma PutFreeKeeps(s: State, f: nat)
    requires Invariant(s) && s.consumer == Thread(PushHold, Some(f))
    ensures Invariant(s.(free := s.free.(items := s.free.items + [f]), consumer := Thread(PushSignal, None)))
  {
    hide Ordered, Shared;
    var t := s.(free := s.free.(items := s.free.items + [f]), consumer := Thread(PushSignal, None));
    FreeShares(s.free.items, s.used.items, f, s.producer.frame);
    assert InFlight(t) == InFlight(s);
  }

  lemma PutOrWaitKeeps(s: State, who: Who)
    requires Invariant(s) && ThreadOf(s, who).pc.PushHold?
    ensures Invariant(PutOrWait(s, who)) && ThreadOf(PutOrWait(s, who), who).pc.PushSignal?
  {
    hide Invariant, OnePlace;
    InvariantPlaces(s);
    RoomToPush(s, who);
    var f := ThreadOf(s, who).frame.value;
    if who == Producer {
      PutUsedKeeps(s, f);
    } else {
      PutFreeKeeps(s, f);
    }
  }

  lemma InvariantPlaces(s: State)
    requires Invariant(s)
    ensures OnePlace(s)
    ensures forall who :: ThreadOf(s, who).pc.PushHold? ==> ThreadOf(s, who).frame.Some?
  {
    hide Shared, Locks, Waits, InOrder;
  }

  lemma RoomToPush(s: State, who: Who)
    requires OnePlace(s) && ThreadOf(s, who).pc.PushHold?
    ensures |QueueOf(s, who, false).items| < 5
  {
    Room(s.free.items, s.used.items, s.producer.frame, s.consumer.frame);
  }

  /** Frames in flight are not the one being filled. */
  lemma FlightIsElsewhere(s: State)
    requires OnePlace(s) && (s.producer.pc.Work? || s.producer.pc.Working?)
    ensures s.producer.frame.value < 5 && s.producer.frame.value !in InFlight(s)
  {
    var f := s.producer.frame.value;
    assert multiset{0, 1, 2, 3, 4}[f] >= 1;
    assert multiset(s.used.items)[f] == 0 && Carried(s.consumer.frame)[f] == 0;
  }

  lemma FillKeeps(s: State)
    requires Invariant(s) && (s.producer.pc.Work? || s.producer.pc.Working?)
    ensures Invariant(Use(s, Producer))
  {
    hide Shared, Carried;
    FlightIsElsewhere(s);
    var t := Use(s, Producer);
    var f := s.producer.frame.value;
    if s.producer.pc.Work? {
      assert InFlight(t) == InFlight(s);
    } else {
      assert InFlight(t) == InFlight(s) + [f];
    }
  }

  lemma SendKeeps(s: State)
    requires Invariant(s) && (s.consumer.pc.Work? || s.consumer.pc.Working?)
    ensures Invariant(Use(s, Consumer))
  {
    hide Shared, Carried;
    var t := Use(s, Consumer);
    var f := s.consumer.frame.value;
    if s.consumer.pc.Work? {
      assert InFlight(t) == InFlight(s);
    } else {
      assert InFlight(s)[0] == f;
      assert InFlight(s) == [f] + InFlight(t);
      assert t.delivered == s.delivered + [s.content[f]];
      assert forall i | 0 <= i < |InFlight(t)| :: InFlight(t)[i] == InFlight(s)[i + 1];
    }
  }

  /** Every action keeps the invariant. */
  lemma NextKeeps(s: State, a: Action)
    requires Invariant(s) && Next(s, a).Some?
    ensures Invariant(Next(s, a).value)
  {
    hide Invariant, Lock, Unlock, Signal, Spurious, TakeOrWait, PutOrWait, Use;
    match a
    case SpuriousWake(who) => SpuriousKeeps(s, who);
    case Run(who) =>
      match ThreadOf(s, who).pc {
        case PopLock => LockKeeps(s, who, true);
        case PopWoken => LockKeeps(s, who, true);
        case PopHold => TakeOrWaitKeeps(s, who);
        case PopSignal => SignalKeeps(s, who, true);
        case PopUnlock => UnlockKeeps(s, who, true);
        case PushLock => LockKeeps(s, who, false);
        case PushWoken => LockKeeps(s, who, false);
        case PushHold => PutOrWaitKeeps(s, who);
        case PushSignal => SignalKeeps(s, who, false);
        case PushUnlock => UnlockKeeps(s, who, false);
        case Work => if who == Producer { FillKeeps(s); } else { SendKeeps(s); }
        case Working => if who == Producer { FillKeeps(s); } else { SendKeeps(s); }
        case PopWait =>
        case PushWait =>
      }
  }

  // ----- what holds in every reachable state -----

  /** Every schedule leads to a state in which the invariant holds. */
  lemma {:induction false} ReachableInvariant(schedule: seq<Action>)
    requires Execute(schedule).Some?
    ensures Invariant(Execute(schedule).value)
    decreases |schedule|
  {
    hide Invariant, Next;
    if schedule == [] {
      InitInvariant();
    } else {
      ReachableInvariant(schedule[..|schedule| - 1]);
      NextKeeps(Execute(schedule[..|schedule| - 1]).value, schedule[|schedule| - 1]);
    }
  }

  /** How often the frame `f` occurs in the queues and hands of `s`. */
  function Occurrences(s: State, f: nat): nat {
    multiset(s.free.items)[f] + multiset(s.used.items)[f] + Carried(s.producer.frame)[f] + Carried(s.consumer.frame)[f]
  }

  /**
   Each of the five frames is in exactly one place, no queue overflows, no push waits, a thread waits
   only while its queue is empty or the other is about to signal it, and what has been delivered is
   the captured images, once each and in order.
   */
  ghost predicate Safe(s: State) {
    && (forall f: nat :: Occurrences(s, f) == (if f < 5 then 1 else 0))
    && |s.free.items| <= 5 && |s.used.items| <= 5
    && !s.producer.pc.PushWait? && !s.consumer.pc.PushWait?
    && (s.producer.pc.PopWait? ==> s.free.items == [] || s.consumer.pc.PushSignal?)
    && (s.consumer.pc.PopWait? ==> s.used.items == [] || s.producer.pc.PushSignal?)
    && |s.delivered| <= s.captured
    && forall i | 0 <= i < |s.delivered| :: s.delivered[i] == Image(i)
  }

  lemma InvariantSafe(s: State)
    requires Invariant(s)
    ensures Safe(s)
  {
    hide InFlight, Locks;
    Room(s.free.items, s.used.items, s.producer.frame, s.consumer.frame);
    forall f: nat ensures Occurrences(s, f) == (if f < 5 then 1 else 0) {
      assert (multiset(s.free.items) + multiset(s.used.items) + Carried(s.producer.frame)
          + Carried(s.consumer.frame))[f]
          == multiset{0, 1, 2, 3, 4}[f];
    }
  }

  /** Safety over whole runs, for every schedule of the two threads. */
  lemma PoolSafe(schedule: seq<Action>)
    requires Execute(schedule).Some?
    ensures Safe(Execute(schedule).value)
  {
    hide Execute, Invariant, Safe;
    ReachableInvariant(schedule);
    InvariantSafe(Execute(schedule).value);
  }

  /** Only filling a frame changes frames' contents. */
  lemma StepContent(s: State)
    requires Step(s, Producer).Some? && !s.producer.pc.Work? && !s.producer.pc.Working?
    ensures Step(s, Producer).value.content == s.content
  {
  }

  lemma HandsDistinct(s: State)
    requires OnePlace(s) && s.consumer.frame.Some? && s.producer.frame.Some?
    ensures s.consumer.frame != s.producer.frame
  {
    var f := s.consumer.frame.value;
    assert multiset{0, 1, 2, 3, 4}[f] <= 1;
    assert Carried(s.consumer.frame)[f] == 1;
  }

  lemma HandsInRange(s: State)
    requires OnePlace(s) && s.consumer.frame.Some?
    ensures s.consumer.frame.value < 5
  {
    var f := s.consumer.frame.value;
    assert multiset{0, 1, 2, 3, 4}[f] >= 1;
  }

  /** While the consumer has a frame, no action of the producer changes that frame's content. */
  lemma InvariantHeld(s: State)
    requires Invariant(s) && s.consumer.frame.Some? && Step(s, Producer).Some?
    ensures var held := s.consumer.frame.value; var t := Step(s, Producer).value;
      && held < |s.content| == |t.content| && t.content[held] == s.content[held]
      && (s.consumer.pc.Work? || s.consumer.pc.Working? ==> s.content[held] == Image(|s.delivered|))
  {
    hide Locks, Waits, Shared;
    HandsInRange(s);
    if s.consumer.pc.Work? || s.consumer.pc.Working? {
      assert InFlight(s)[0] == s.consumer.frame.value;
    }
    hide InFlight;
    if s.producer.pc.Work? || s.producer.pc.Working? {
      HandsDistinct(s);
    } else {
      StepContent(s);
    }
  }

  lemma HeldFrameUntouched(schedule: seq<Action>)
    requires Execute(schedule).Some?
    requires var s := Execute(schedule).value; s.consumer.frame.Some? && Step(s, Producer).Some?
    ensures var s := Execute(schedule).value; var held := s.consumer.frame.value; var t := Step(s, Producer).value;
      && held < |s.content| == |t.content| && t.content[held] == s.content[held]
      && (s.consumer.pc.Work? || s.consumer.pc.Working? ==> s.content[held] == Image(|s.delivered|))
  {
    hide Execute, Invariant, Step;
    ReachableInvariant(schedule);
    InvariantHeld(Execute(schedule).value);
  }

  predicate Blocked(s: State, who: Who) {
    Step(s, who).None?
  }

  lemma Owners(owner: Option<Who>)
    ensures owner == None || owner == Some(Producer) || owner == Some(Consumer)
  {
    if owner.Some? {
      match owner.value
      case Producer =>
      case Consumer =>
    }
  }

  /** A blocked thread waits for a signal, or for the lock the other thread holds. */
  lemma BlockedWhy(s: State, who: Who)
    requires Invariant(s) && Blocked(s, who)
    ensures ThreadOf(s, who).pc.PopWait? || Holds(ThreadOf(s, Other(who)).pc)
  {
    hide Ordered, Shared;
    Owners(s.free.owner);
    Owners(s.used.owner);
  }

  lemma HolderRuns(s: State, who: Who)
    requires Holds(ThreadOf(s, who).pc)
    ensures !Blocked(s, who)
  {
  }

  lemma InvariantProgress(s: State)
    requires Invariant(s)
    ensures !Blocked(s, Producer) || !Blocked(s, Consumer)
  {
    hide Ordered, Blocked;
    if Blocked(s, Producer) && Blocked(s, Consumer) {
      BlockedWhy(s, Producer);
      BlockedWhy(s, Consumer);
      if Holds(s.producer.pc) {
        HolderRuns(s, Producer);
      }
      if Holds(s.consumer.pc) {
        HolderRuns(s, Consumer);
      }
    }
  }

  /** Progress: in no reachable state are both threads blocked. */
  lemma NeverBothBlocked(schedule: seq<Action>)
    requires Execute(schedule).Some?
    ensures !Blocked(Execute(schedule).value, Producer) || !Blocked(Execute(schedule).value, Consumer)
  {
    hide Execute, Invariant, Blocked;
    ReachableInvariant(schedule);
    InvariantProgress(Execute(schedule).value);
  }
}
