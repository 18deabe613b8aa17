/** The frame pool delivers: every step of the two threads brings the next image nearer. */
module FramePoolProgress {
  import opened Prelude
  import opened FramePoolProtocol

  /** How far a thread is on its way from handing on one image to handing on the next, of 12 steps. */
  function Rank(pc: Pc): nat {
    match pc
    case PushLock => 0
    case PushHold => 1
    case PushSignal => 2
    // a signal counts for three steps, because it sends a waiting thread two steps back
    case PushUnlock => 5
    case PopLock => 6
    case PopWoken => 6
    case PopHold => 7
    case PopWait => 8
    case PopSignal => 8
    case PopUnlock => 9
    case Work => 10
    case Working => 11
    // pushing never waits
    case PushWait => 2
    case PushWoken => 0
  }

  /** The steps made so far: 12 for each image captured or delivered, and those since. */
  function Progress(s: State): nat {
    12 * (s.captured + |s.delivered|) + Rank(s.producer.pc) + Rank(s.consumer.pc)
  }

  /** The producer is at most five images ahead. */
  lemma FiveAhead(s: State)
    requires Invariant(s)
    ensures s.captured <= |s.delivered| + 5
  {
    hide Shared, Locks, Waits;
    Room(s.free.items, s.used.items, s.producer.frame, s.consumer.frame);
  }

  /** So there is no more progress than the delivered images account for. */
  lemma ProgressBound(s: State)
    requires Invariant(s)
    ensures Progress(s) <= 24 * |s.delivered| + 82
  {
    hide Invariant;
    FiveAhead(s);
  }

  /** A thread that uses a frame has one. */
  lemma UserCarries(s: State, who: Who)
    requires Invariant(s) && ThreadOf(s, who).pc.Working?
    ensures var f := ThreadOf(s, who).frame; f.Some? && f.value < |s.content|
  {
    hide Shared, Locks, Waits;
    if who == Producer {
      FlightIsElsewhere(s);
    } else {
      HandsInRange(s);
    }
  }

  lemma FillAdvances(s: State)
    requires var t := s.producer; t.pc.Work? || (t.pc.Working? && t.frame.Some? && t.frame.value < |s.content|)
    ensures Progress(Use(s, Producer)) == Progress(s) + 1
  {
  }

  lemma SendAdvances(s: State)
    requires var t := s.consumer; t.pc.Work? || (t.pc.Working? && t.frame.Some? && t.frame.value < |s.content|)
    ensures Progress(Use(s, Consumer)) == Progress(s) + 1
  {
  }

  lemma LockAdvances(s: State, who: Who, pop: bool)
    requires Lock(s, who, pop).Some?
    requires var pc := ThreadOf(s, who).pc; if pop then pc.PopLock? || pc.PopWoken? else pc.PushLock? || pc.PushWoken?
    ensures Progress(Lock(s, who, pop).value) == Progress(s) + 1
  {
  }

  lemma TakeAdvances(s: State, who: Who)
    requires ThreadOf(s, who).pc.PopHold?
    ensures Progress(TakeOrWait(s, who)) == Progress(s) + 1
  {
  }

  lemma PutAdvances(s: State, who: Who)
    requires ThreadOf(s, who).pc.PushHold?
    ensures Progress(PutOrWait(s, who)) == Progress(s) + 1
  {
  }

  /** Even if it sends the other thread from its wait to the lock. */
  lemma SignalAdvances(s: State, who: Who, pop: bool)
    requires !ThreadOf(s, Other(who)).pc.PushWait?
    requires ThreadOf(s, who).pc == if pop then PopSignal else PushSignal
    ensures Progress(Signal(s, who, pop)) > Progress(s)
  {
  }

  lemma UnlockAdvances(s: State, who: Who, pop: bool)
    requires ThreadOf(s, who).pc == if pop then PopUnlock else PushUnlock
    ensures Progress(Unlock(s, who, pop)) == Progress(s) + 1
  {
  }

  lemma NoPushWait(s: State, who: Who)
    requires Invariant(s)
    ensures !ThreadOf(s, who).pc.PushWait? && !ThreadOf(s, who).pc.PushWoken?
  {
    hide Locks, OnePlace, InOrder;
  }

  /** Every step of a thread is progress. */
  lemma StepAdvances(s: State, who: Who)
    requires Invariant(s) && Step(s, who).Some?
    ensures Progress(Step(s, who).value) > Progress(s)
  {
    hide Invariant, Progress, Lock, TakeOrWait, PutOrWait, Signal, Unlock, Use;
    NoPushWait(s, Other(who));
    match ThreadOf(s, who).pc
    case PopLock => LockAdvances(s, who, true);
    case PopWoken => LockAdvances(s, who, true);
    case PopHold => TakeAdvances(s, who);
    case PopSignal => SignalAdvances(s, who, true);
    case PopUnlock => UnlockAdvances(s, who, true);
    case Work => if who == Producer { FillAdvances(s); } else { SendAdvances(s); }
    case Working =>
      UserCarries(s, who);
      if who == Producer { FillAdvances(s); } else { SendAdvances(s); }
    case PushLock => LockAdvances(s, who, false);
    case PushWoken => LockAdvances(s, who, false);
    case PushHold => PutAdvances(s, who);
    case PushSignal => SignalAdvances(s, who, false);
    case PushUnlock => UnlockAdvances(s, who, false);
    case PopWait =>
    case PushWait =>
  }

  /** A spurious wake-up costs two steps. */
  lemma SpuriousCosts(s: State, who: Who)
    requires Invariant(s) && Spurious(s, who).Some?
    ensures Progress(Spurious(s, who).value) == Progress(s) - 2
  {
    hide Shared, Locks, OnePlace, InOrder;
  }

  // ----- every run -----

  function Runs(schedule: seq<Action>): nat {
    if schedule == [] then 0
    else Runs(schedule[..|schedule| - 1]) + if schedule[|schedule| - 1].Run? then 1 else 0
  }

  lemma {:induction false} RunProgress(schedule: seq<Action>)
    requires Execute(schedule).Some?
    ensures Progress(Execute(schedule).value) >= 12 + 3 * Runs(schedule) - 2 * |schedule|
    decreases |schedule|
  {
    hide Next, Invariant, Progress;
    if schedule == [] {
      assert Progress(INIT) == 12 by {
        ProgressOfInit();
      }
    } else {
      var before, a := schedule[..|schedule| - 1], schedule[|schedule| - 1];
      RunProgress(before);
      ReachableInvariant(before);
      NextAdvances(Execute(before).value, a);
    }
  }

  lemma ProgressOfInit()
    ensures Progress(INIT) == 12
  {
  }

  lemma NextAdvances(s: State, a: Action)
    requires Invariant(s) && Next(s, a).Some?
    ensures Progress(Next(s, a).value) >= Progress(s) + if a.Run? then 1 else -2
  {
    hide Invariant, Progress, Step, Spurious;
    match a
    case Run(who) => StepAdvances(s, who);
    case SpuriousWake(who) => SpuriousCosts(s, who);
  }

  /**
   Whatever the schedule, one image is delivered for every 24 steps of the threads, up to 70 steps that
   may be under way and two for each spurious wake-up.
   */
  lemma RunDelivers(schedule: seq<Action>)
    requires Execute(schedule).Some?
    ensures var wakes := |schedule| - Runs(schedule);
      Runs(schedule) <= 24 * |Execute(schedule).value.delivered| + 70 + 2 * wakes
  {
    hide Execute, Invariant, Progress, Runs;
    RunProgress(schedule);
    ReachableInvariant(schedule);
    ProgressBound(Execute(schedule).value);
  }

  // ----- from every reachable state -----

  /** The state after `who` had its turn, in which a blocked thread does nothing. */
  function Turn(s: State, who: Who): State {
    if Step(s, who).Some? then Step(s, who).value else s
  }

  function Turns(s: State, turns: seq<Who>): State
    decreases |turns|
  {
    if turns == [] then s else Turns(Turn(s, turns[0]), turns[1..])
  }

  /** In a round each of the two threads has a turn, at least one. */
  predicate Round(turns: seq<Who>) {
    Producer in turns && Consumer in turns
  }

  function AfterRounds(s: State, rounds: seq<seq<Who>>): State
    decreases |rounds|
  {
    if rounds == [] then s else AfterRounds(Turns(s, rounds[0]), rounds[1..])
  }

  lemma TurnKeeps(s: State, who: Who)
    requires Invariant(s)
    ensures Invariant(Turn(s, who)) && Progress(Turn(s, who)) >= Progress(s)
    ensures Step(s, who).Some? ==> Progress(Turn(s, who)) > Progress(s)
    ensures Step(s, who).None? ==> Turn(s, who) == s
  {
    hide Invariant, Progress, Step;
    if Step(s, who).Some? {
      NextKeeps(s, Run(who));
      StepAdvances(s, who);
    }
  }

  lemma {:induction false} TurnsKeep(s: State, turns: seq<Who>)
    requires Invariant(s)
    ensures Invariant(Turns(s, turns)) && Progress(Turns(s, turns)) >= Progress(s)
    decreases |turns|
  {
    hide Invariant, Progress, Turn;
    if turns != [] {
      TurnKeeps(s, turns[0]);
      TurnsKeep(Turn(s, turns[0]), turns[1..]);
    }
  }

  /** An unblocked thread's turn comes; if nothing happens before, it makes a step. */
  lemma {:induction false} TurnComes(s: State, turns: seq<Who>, who: Who)
    requires Invariant(s) && Step(s, who).Some? && who in turns
    ensures Progress(Turns(s, turns)) > Progress(s)
    decreases |turns|
  {
    hide Invariant, Progress, Turn, Step;
    TurnKeeps(s, turns[0]);
    if Step(s, turns[0]).Some? {
      TurnsKeep(Turn(s, turns[0]), turns[1..]);
    } else {
      assert who in turns[1..];
      TurnComes(s, turns[1..], who);
    }
  }

  lemma RoundAdvances(s: State, turns: seq<Who>)
    requires Invariant(s) && Round(turns)
    ensures Invariant(Turns(s, turns)) && Progress(Turns(s, turns)) > Progress(s)
  {
    hide Invariant, Progress, Turns, Step;
    TurnsKeep(s, turns);
    InvariantProgress(s);
    if Step(s, Producer).Some? {
      TurnComes(s, turns, Producer);
    } else {
      TurnComes(s, turns, Consumer);
    }
  }

  lemma {:induction false} RoundsAdvance(s: State, rounds: seq<seq<Who>>)
    requires Invariant(s) && forall i | 0 <= i < |rounds| :: Round(rounds[i])
    ensures Invariant(AfterRounds(s, rounds)) && Progress(AfterRounds(s, rounds)) >= Progress(s) + |rounds|
    decreases |rounds|
  {
    hide Invariant, Progress, Turns, Round;
    if rounds != [] {
      RoundAdvances(s, rounds[0]);
      RoundsAdvance(Turns(s, rounds[0]), rounds[1..]);
    }
  }

  lemma ProgressCovers(s: State)
    requires Invariant(s)
    ensures Progress(s) >= 24 * |s.delivered|
  {
    hide Locks, OnePlace, Waits;
  }

  /**
   From every reachable state, `24 * n + 59` rounds deliver `n` more images, in order, however long the rounds are
   and in whatever order the threads have their turns in them.
   */
  lemma RoundsDeliver(schedule: seq<Action>, rounds: seq<seq<Who>>, n: nat)
    requires Execute(schedule).Some?
    requires |rounds| >= 24 * n + 59 && forall i | 0 <= i < |rounds| :: Round(rounds[i])
    ensures var s := Execute(schedule).value; var delivered := AfterRounds(s, rounds).delivered;
      |delivered| >= |s.delivered| + n && forall i | 0 <= i < |delivered| :: delivered[i] == Image(i)
  {
    hide Execute, Invariant, Progress, AfterRounds, Round;
    var s := Execute(schedule).value;
    ReachableInvariant(schedule);
    ProgressCovers(s);
    RoundsAdvance(s, rounds);
    ProgressBound(AfterRounds(s, rounds));
    InvariantSafe(AfterRounds(s, rounds));
  }
}
