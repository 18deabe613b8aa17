/** The crash-safe upgrade of one partition by a difference image (flash_image.c, do_patch.c). */
module Updater {
  import opened Prelude
  import BsPatch

  type Image = seq<byte>

  /** True if the partition content `flash` begins with the image. */
  predicate Holds(flash: Image, image: Image) {
    |image| <= |flash| && flash[..|image|] == image
  }

  /** What is being upgraded: the two images, and what the patch makes of a partition content. */
  datatype Upgrade = Upgrade(oldImage: Image, newImage: Image, patch: Image -> Option<Image>)

  /** The patch in the update file fits the old image, and the new image is not empty. */
  ghost predicate WellFormed(u: Upgrade) {
    && u.newImage != []
    && forall flash: Image :: Holds(flash, u.oldImage) ==> u.patch(flash) == Some(u.newImage)
  }

  /**
   The patch of do_patch.c, made for the new image by any cutting of it, fits: whatever lies behind the
   old image in the partition is not looked at.
   */
  lemma DifferenceFits(oldImage: Image, newImage: Image, cuts: seq<BsPatch.Cut>)
    requires newImage != [] && |newImage| == BsPatch.CutSize(cuts)
    ensures WellFormed(Upgrade(oldImage, newImage, DifferencePatch(oldImage, newImage, cuts)))
  {
    hide BsPatch.Patched, BsPatch.DiffStream, BsPatch.ExtraStream, BsPatch.Controls;
    BsPatch.PatchRebuilds(oldImage, |newImage|, 0, 0, newImage, cuts, [], []);
    var diff, extra := BsPatch.DiffStream(oldImage, 0, newImage, cuts), BsPatch.ExtraStream(newImage, cuts);
    assert diff + [] == diff && extra + [] == extra;
  }

  /** Patching the first bytes of a partition, as many as the old image has. */
  function DifferencePatch(oldImage: Image, newImage: Image, cuts: seq<BsPatch.Cut>): Image -> Option<Image>
    requires |newImage| == BsPatch.CutSize(cuts)
  {
    (flash: Image) =>
      if |flash| < |oldImage| then None
      else
        BsPatch.Patched(flash[..|oldImage|], |newImage|, 0, 0, BsPatch.Controls(cuts),
                        BsPatch.DiffStream(oldImage, 0, newImage, cuts), BsPatch.ExtraStream(newImage, cuts))
  }

  // ----- the protocol, one durable effect at a time -----
  // The new image is patched into a file, verified, and only then written to the flash; the file is
  // removed last. MD5 is idealised as identity of contents.

  /** The program points of an upgrade run. */
  datatype Pc =
    | Start                 // about to look for a verified file
    | Patching              // the output file is open and being filled
    | Patched               // the output file is complete, not yet on disk
    | Verifying             // sync done, comparing the checksum
    | Flashing(at: nat)     // `at` bytes of the new image are written to the partition
    | Marking               // block_write returned, about to append to the done file
    | Marked                // about to sync and remove the output file
    | Removed               // about to sync
    | Stopped               // the run is over, with success or with an error

  /** A file or partition that is clean survives a crash unchanged; a dirty one comes back as anything. */
  datatype State = State(pc: Pc, flash: Image, flashClean: bool, file: Option<Image>, fileClean: bool)

  datatype Event =
    | Advance                                        // the next step succeeds
    | Scribble(content: Image)                       // the patch loop has filled the file this far
    | WriteChunk(size: nat)                          // a write to the partition
    | WriteFails(size: nat)                          // a write stores fewer bytes and block_write gives up
    | Crash(flash: Image, file: Option<Image>)       // power loss; what dirty storage comes back as
    | Die                                            // the process alone dies; storage stays as it is, dirty or not
    | Retry                                          // the upgrade is started again

  /** The partition with the first `n` bytes of `image` written over it. */
  function Overwritten(flash: Image, image: Image, n: nat): (r: Image)
    requires n <= |image| <= |flash|
    ensures |r| == |flash|
  {
    image[..n] + flash[n..]
  }

  function Next(u: Upgrade, s: State, e: Event): Option<State> {
    match e
    case Crash(flash, file) =>
      if |flash| != |s.flash| then None
      else
        var newFlash, newFile := if s.flashClean then s.flash else flash, if s.fileClean then s.file else file;
        Some(State(Stopped, newFlash, true, newFile, true))
    case Die => Some(s.(pc := Stopped))
    case Retry =>
      if s.pc == Stopped then Some(s.(pc := Start)) else None
    case Scribble(content) =>
      if s.pc == Patching then Some(s.(file := Some(content), fileClean := false)) else None
    case WriteChunk(size) =>
      if s.pc.Flashing? && |u.newImage| <= |s.flash| && 0 < size && s.pc.at + size <= |u.newImage| then
        var flash := Overwritten(s.flash, u.newImage, s.pc.at + size);
        Some(s.(pc := Flashing(s.pc.at + size), flash := flash, flashClean := false))
      else None
    case WriteFails(size) =>
      // the return value of block_write is not looked at before the file is removed
      if s.pc.Flashing? && |u.newImage| <= |s.flash| && s.pc.at + size < |u.newImage| then
        Some(s.(pc := Marking, flash := Overwritten(s.flash, u.newImage, s.pc.at + size), flashClean := false))
      else None
    case Advance =>
      match s.pc
      case Start =>
        if s.file == Some(u.newImage) then Some(s.(pc := Flashing(0)))
        else Some(s.(pc := Patching, file := Some([]), fileClean := false))
      case Patching =>
        // the output may be complete, or the patch corrupt
        if u.patch(s.flash).Some? then Some(s.(pc := Patched, file := u.patch(s.flash), fileClean := false))
        else Some(s.(pc := Stopped))
      case Patched => Some(s.(pc := Verifying, flashClean := true, fileClean := true))
      case Verifying => Some(s.(pc := if s.file == Some(u.newImage) then Flashing(0) else Stopped))
      case Flashing(at) =>
        // the loop is over: fsync
        if at == |u.newImage| then Some(s.(pc := Marking, flashClean := true)) else None
      case Marking => Some(s.(pc := Marked))
      case Marked => Some(s.(pc := Removed, flashClean := true, file := None, fileClean := false))
      case Removed => Some(s.(pc := Stopped, flashClean := true, fileClean := true))
      case Stopped => None
  }

  function Run(u: Upgrade, s: State, events: seq<Event>): Option<State>
    decreases |events|
  {
    if events == [] then Some(s)
    else
      var before := Run(u, s, events[..|events| - 1]);
      if before.None? then None else Next(u, before.value, events[|events| - 1])
  }

  /** Before the first run: the old image on the flash, no output file. */
  function Initial(flash: Image): State {
    State(Start, flash, true, None, true)
  }

  /** At least one complete image is safe, whatever a crash does to dirty storage. */
  predicate Safe(u: Upgrade, s: State) {
    || (Holds(s.flash, u.oldImage) && s.flashClean)
    || (s.file == Some(u.newImage) && s.fileClean)
    || (Holds(s.flash, u.newImage) && s.flashClean)
  }

  // ----- the invariant -----

  predicate WholeFlash(u: Upgrade, s: State) {
    (Holds(s.flash, u.oldImage) || Holds(s.flash, u.newImage)) && s.flashClean
  }

  predicate Verified(u: Upgrade, s: State) {
    s.file == Some(u.newImage) && s.fileClean
  }

  predicate Invariant(u: Upgrade, s: State) {
    && |u.newImage| <= |s.flash|
    && match s.pc
       case Start | Stopped => (WholeFlash(u, s) || Verified(u, s)) && (s.file == Some(u.newImage) ==> s.fileClean)
       case Patching => WholeFlash(u, s) && !s.fileClean
       case Patched => WholeFlash(u, s) && !s.fileClean
       case Verifying => WholeFlash(u, s) && s.fileClean
       case Flashing(at) => Verified(u, s) && at <= |u.newImage| && (at > 0 ==> s.flash[..at] == u.newImage[..at])
       case Marking | Marked => Verified(u, s) && Holds(s.flash, u.newImage) && s.flashClean
       case Removed => Holds(s.flash, u.newImage) && s.flashClean && s.file == None
  }

  lemma InvariantSafe(u: Upgrade, s: State)
    requires Invariant(u, s)
    ensures Safe(u, s)
  {
  }

  /**
   The process dies, or gives up a corrupt patch, when the file already equals the new image but is not
   yet on disk.
   */
  predicate DiesUnsynced(u: Upgrade, s: State, e: Event) {
    && (e.Die? || (e.Advance? && s.pc == Patching && u.patch(s.flash).None?))
    && (s.pc == Patching || s.pc == Patched) && s.file == Some(u.newImage)
  }

  /** Neither a failing partition write nor such a death. */
  predicate Gentle(u: Upgrade, s: State, e: Event) {
    !e.WriteFails? && !DiesUnsynced(u, s, e)
  }

  /** A run all of whose events are gentle. */
  predicate GentleRun(u: Upgrade, s: State, events: seq<Event>)
    decreases |events|
  {
    events != [] ==>
      var n := |events| - 1;
      var before := Run(u, s, events[..n]);
      GentleRun(u, s, events[..n]) && (before.Some? ==> Gentle(u, before.value, events[n]))
  }

  lemma NextKeeps(u: Upgrade, s: State, e: Event)
    requires WellFormed(u) && Invariant(u, s) && Gentle(u, s, e) && Next(u, s, e).Some?
    ensures Invariant(u, Next(u, s, e).value)
  {
  }

  lemma {:induction false} RunKeeps(u: Upgrade, s: State, events: seq<Event>)
    requires WellFormed(u) && Invariant(u, s) && Run(u, s, events).Some? && GentleRun(u, s, events)
    ensures Invariant(u, Run(u, s, events).value)
    decreases |events|
  {
    hide Invariant, WellFormed, Next, Gentle;
    if events != [] {
      RunKeeps(u, s, events[..|events| - 1]);
      NextKeeps(u, Run(u, s, events[..|events| - 1]).value, events[|events| - 1]);
    }
  }

  lemma InitialInvariant(u: Upgrade, flash: Image)
    requires Holds(flash, u.oldImage) && |u.newImage| <= |flash|
    ensures Invariant(u, Initial(flash))
  {
  }

  /**
   Crash safety: with power losses, process deaths and retries anywhere, any number of times, every
   state of a run still has a complete image that a further crash cannot lose, unless a partition write
   has failed or the process has died between the byte that completes the file and the sync.
   */
  lemma CrashSafe(u: Upgrade, flash: Image, events: seq<Event>)
    requires WellFormed(u) && Holds(flash, u.oldImage) && |u.newImage| <= |flash|
    requires Run(u, Initial(flash), events).Some? && GentleRun(u, Initial(flash), events)
    ensures Safe(u, Run(u, Initial(flash), events).value)
  {
    hide Run, WellFormed;
    InitialInvariant(u, flash);
    RunKeeps(u, Initial(flash), events);
    InvariantSafe(u, Run(u, Initial(flash), events).value);
  }

  // ----- the death of the process -----

  lemma {:induction false} RunAfter(u: Upgrade, s: State, e: Event, events: seq<Event>)
    requires Next(u, s, e).Some?
    ensures Run(u, s, [e] + events) == Run(u, Next(u, s, e).value, events)
    decreases |events|
  {
    hide Next;
    if events == [] {
      assert [e] + [] == [e] && [e][..0] == [];
    } else {
      var n := |events| - 1;
      RunAfter(u, s, e, events[..n]);
      assert ([e] + events)[..n + 1] == [e] + events[..n];
    }
  }

  /**
   A death of the process can be followed by the loss of both images, in a run that is gentle from then
   on, exactly if it comes between the byte that completes the file and the sync: the retry then takes
   the complete file for one that is on disk.
   */
  lemma DeathSafeIff(u: Upgrade, s: State)
    requires WellFormed(u) && Invariant(u, s)
    ensures DiesUnsynced(u, s, Die)
       <==> exists events: seq<Event> ::
              && GentleRun(u, s.(pc := Stopped), events)
              && Run(u, s, [Die] + events).Some? && !Safe(u, Run(u, s, [Die] + events).value)
  {
    var t := Next(u, s, Die).value;
    if DiesUnsynced(u, s, Die) {
      UnsyncedDeathLoses(u, s);
    } else {
      NextKeeps(u, s, Die);
      forall events: seq<Event> | GentleRun(u, t, events) && Run(u, s, [Die] + events).Some?
        ensures Safe(u, Run(u, s, [Die] + events).value)
      {
        hide Next, Invariant, WellFormed, Run, GentleRun;
        RunAfter(u, s, Die, events);
        RunKeeps(u, t, events);
        InvariantSafe(u, Run(u, t, events).value);
      }
    }
  }

  lemma UnsyncedDeathLoses(u: Upgrade, s: State)
    requires WellFormed(u) && Invariant(u, s) && DiesUnsynced(u, s, Die)
    ensures var events := [Retry, Advance, WriteChunk(1)];
      && GentleRun(u, s.(pc := Stopped), events)
      && Run(u, s, [Die] + events).Some? && !Safe(u, Run(u, s, [Die] + events).value)
  {
    var s1 := s.(pc := Stopped);
    var s2 := s.(pc := Start);
    var s3 := s.(pc := Flashing(0));
    var s4 := State(Flashing(1), Overwritten(s.flash, u.newImage, 1), false, s.file, false);
    assert Next(u, s, Die) == Some(s1) && Next(u, s1, Retry) == Some(s2) && Next(u, s2, Advance) == Some(s3);
    assert Next(u, s3, WriteChunk(1)) == Some(s4);
    assert Gentle(u, s1, Retry) && Gentle(u, s2, Advance) && Gentle(u, s3, WriteChunk(1));
    hide Next, Gentle, Invariant, WellFormed, Overwritten;
    RunExtends(u, s1, [], s1, Retry);
    RunExtends(u, s1, [] + [Retry], s2, Advance);
    RunExtends(u, s1, [] + [Retry] + [Advance], s3, WriteChunk(1));
    GentleExtends(u, s1, [], s1, Retry);
    GentleExtends(u, s1, [] + [Retry], s2, Advance);
    GentleExtends(u, s1, [] + [Retry] + [Advance], s3, WriteChunk(1));
    assert [] + [Retry] + [Advance] + [WriteChunk(1)] == [Retry, Advance, WriteChunk(1)];
    RunAfter(u, s, Die, [Retry, Advance, WriteChunk(1)]);
  }

  lemma GentleExtends(u: Upgrade, s: State, events: seq<Event>, t: State, e: Event)
    requires GentleRun(u, s, events) && Run(u, s, events) == Some(t) && Gentle(u, t, e)
    ensures GentleRun(u, s, events + [e])
  {
    assert (events + [e])[..|events|] == events;
  }

  /**
   Such a death can happen: two steps into the first run the file is complete but not synced. The retry
   takes it for verified and begins to write, and a power loss can leave anything on the flash, and no
   file.
   */
  lemma UnsyncedDeathLosesBoth(u: Upgrade, flash: Image, lost: Image)
    requires WellFormed(u) && Holds(flash, u.oldImage) && |u.newImage| <= |flash| == |lost|
    ensures Run(u, Initial(flash), [Advance, Advance, Die, Retry, Advance, WriteChunk(1), Crash(lost, None)])
         == Some(State(Stopped, lost, true, None, true))
  {
    var s1 := State(Patching, flash, true, Some([]), false);
    var s2 := State(Patched, flash, true, Some(u.newImage), false);
    var s3 := s2.(pc := Stopped);
    var s4 := s2.(pc := Start);
    var s5 := s2.(pc := Flashing(0));
    var s6 := State(Flashing(1), Overwritten(flash, u.newImage, 1), false, s2.file, false);
    hide Run, Holds, Overwritten;
    RunSeven(u, Initial(flash), [Advance, Advance, Die, Retry, Advance, WriteChunk(1), Crash(lost, None)],
        s1, s2, s3, s4, s5, s6, State(Stopped, lost, true, None, true));
  }

  // ----- a failing partition write -----

  /**
   After a failing partition write the file is removed all the same. With `before` on the flash when
   block_write began and `n` bytes written, the new image survives exactly if the rest of it was there
   already, and the old one exactly if it was there and begins with what was written over it.
   */
  lemma FailedWriteSafeIff(u: Upgrade, s: State, size: nat, before: Image)
    requires u.newImage != [] && Next(u, s, WriteFails(size)).Some?
    requires |before| == |s.flash| && s.flash == Overwritten(before, u.newImage, s.pc.at)
    ensures var t, n := Run(u, s, [WriteFails(size), Advance, Advance]), s.pc.at + size;
      && t.Some? && t.value.flash == Overwritten(before, u.newImage, n)
      && (Safe(u, t.value) <==> NewSurvives(u, before, n) || OldSurvives(u, before, n))
    ensures Holds(before, u.oldImage) ==>
      var n := s.pc.at + size;
      var m := if n < |u.oldImage| then n else |u.oldImage|;
      OldSurvives(u, before, n) <==> u.oldImage[..m] == u.newImage[..m]
  {
    hide *;
    FailedWriteRun(u, s, size);
    var n := s.pc.at + size;
    OverwrittenTwice(before, u.newImage, s.pc.at, n);
    NewHeld(u, before, n);
    OldHeld(u, before, n);
  }

  /** The file is removed, and what the flash then holds is all there is. */
  lemma FailedWriteRun(u: Upgrade, s: State, size: nat)
    requires Next(u, s, WriteFails(size)).Some?
    ensures s.pc.Flashing? && s.pc.at + size < |u.newImage| <= |s.flash|
    ensures var t := Run(u, s, [WriteFails(size), Advance, Advance]);
      && t.Some? && t.value.flash == Overwritten(s.flash, u.newImage, s.pc.at + size)
      && (Safe(u, t.value) <==> Holds(t.value.flash, u.oldImage) || Holds(t.value.flash, u.newImage))
  {
    var t1 := Next(u, s, WriteFails(size)).value;
    var t2 := Next(u, t1, Advance).value;
    var t3 := Next(u, t2, Advance).value;
    assert t3.flash == t1.flash && t3.flashClean && t3.file == None;
    hide Next, Overwritten, Holds;
    RunExtends(u, s, [], s, WriteFails(size));
    RunExtends(u, s, [] + [WriteFails(size)], t1, Advance);
    RunExtends(u, s, [] + [WriteFails(size)] + [Advance], t2, Advance);
    assert [] + [WriteFails(size)] + [Advance] + [Advance] == [WriteFails(size), Advance, Advance];
  }

  /** What block_write had not reached was the new image's own already. */
  predicate NewSurvives(u: Upgrade, before: Image, n: nat)
    requires n <= |u.newImage| <= |before|
  {
    before[n..|u.newImage|] == u.newImage[n..]
  }

  /** What block_write put over the old image was the same, and the rest was there. */
  predicate OldSurvives(u: Upgrade, before: Image, n: nat)
    requires n <= |u.newImage|
  {
    var m := if n < |u.oldImage| then n else |u.oldImage|;
    |u.oldImage| <= |before| && u.oldImage[..m] == u.newImage[..m] && before[m..|u.oldImage|] == u.oldImage[m..]
  }

  lemma OverwrittenTwice(flash: Image, image: Image, m: nat, n: nat)
    requires m <= n <= |image| <= |flash|
    ensures Overwritten(Overwritten(flash, image, m), image, n) == Overwritten(flash, image, n)
  {
  }

  lemma NewHeld(u: Upgrade, before: Image, n: nat)
    requires n <= |u.newImage| <= |before|
    ensures Holds(Overwritten(before, u.newImage, n), u.newImage) <==> NewSurvives(u, before, n)
  {
    var image, after := u.newImage, Overwritten(before, u.newImage, n);
    assert after[..|image|] == image[..n] + before[n..|image|];
    assert image == image[..n] + image[n..];
    if after[..|image|] == image {
      assert before[n..|image|] == after[..|image|][n..];
    }
  }

  lemma OldHeld(u: Upgrade, before: Image, n: nat)
    requires n <= |u.newImage| <= |before|
    ensures Holds(Overwritten(before, u.newImage, n), u.oldImage) <==> OldSurvives(u, before, n)
    ensures Holds(before, u.oldImage) ==>
      var m := if n < |u.oldImage| then n else |u.oldImage|;
      OldSurvives(u, before, n) <==> u.oldImage[..m] == u.newImage[..m]
  {
    var was, after := u.oldImage, Overwritten(before, u.newImage, n);
    var m := if n < |was| then n else |was|;
    if |was| <= |before| {
      assert after[..|was|] == u.newImage[..m] + before[m..|was|];
      assert was == was[..m] + was[m..];
      if after[..|was|] == was {
        assert u.newImage[..m] == after[..|was|][..m] && before[m..|was|] == after[..|was|][m..];
      }
      if before[..|was|] == was {
        assert before[m..|was|] == before[..|was|][m..];
      }
    }
  }

  const LOSING_RUN := [Advance, Advance, Advance, Advance, WriteFails(1), Advance, Advance]

  lemma LosingSteps(u: Upgrade)
    requires u.newImage == [2, 2] && u.patch([1, 1]) == Some([2, 2])
    ensures Run(u, Initial([1, 1]), LOSING_RUN) == Some(State(Removed, [2, 1], true, None, false))
  {
    var s1 := State(Patching, [1, 1], true, Some([]), false);
    var s2 := State(Patched, [1, 1], true, Some([2, 2]), false);
    var s3 := State(Verifying, [1, 1], true, Some([2, 2]), true);
    var s4 := State(Flashing(0), [1, 1], true, Some([2, 2]), true);
    var s5 := State(Marking, [2, 1], false, Some([2, 2]), true);
    var s6 := State(Marked, [2, 1], false, Some([2, 2]), true);
    var s7 := State(Removed, [2, 1], true, None, false);
    assert Overwritten([1, 1], [2, 2], 1) == [2, 1];
    RunSeven(u, Initial([1, 1]), LOSING_RUN, s1, s2, s3, s4, s5, s6, s7);
  }

  /** A failing partition write is not covered: the file is removed although the flash is half written. */
  lemma FailedWriteLosesBoth()
    ensures exists u: Upgrade, flash: Image, events: seq<Event> ::
      && WellFormed(u) && Holds(flash, u.oldImage) && |u.newImage| <= |flash|
      && Run(u, Initial(flash), events).Some? && !Safe(u, Run(u, Initial(flash), events).value)
  {
    hide Run;
    var u := Upgrade([1, 1], [2, 2], (flash: Image) => if Holds(flash, [1, 1]) then Some([2, 2]) else None);
    assert Holds([1, 1], [1, 1]) && u.patch([1, 1]) == Some([2, 2]);
    LosingSteps(u);
    var lost := State(Removed, [2, 1], true, None, false);
    assert !Safe(u, lost) by {
      assert lost.flash[..2] == lost.flash && lost.flash[0] != u.oldImage[0] && lost.flash[1] != u.newImage[1];
    }
    assert WellFormed(u);
  }

  lemma RunExtends(u: Upgrade, s: State, events: seq<Event>, t: State, e: Event)
    requires Run(u, s, events) == Some(t)
    ensures Run(u, s, events + [e]) == Next(u, t, e)
  {
    assert (events + [e])[..|events|] == events;
  }

  lemma RunSeven(u: Upgrade, s: State, e: seq<Event>, s1: State, s2: State, s3: State, s4: State,
      s5: State, s6: State, s7: State)
    requires |e| == 7
    requires Next(u, s, e[0]) == Some(s1) && Next(u, s1, e[1]) == Some(s2)
    requires Next(u, s2, e[2]) == Some(s3)
    requires Next(u, s3, e[3]) == Some(s4) && Next(u, s4, e[4]) == Some(s5)
    requires Next(u, s5, e[5]) == Some(s6)
    requires Next(u, s6, e[6]) == Some(s7)
    ensures Run(u, s, e) == Some(s7)
  {
    hide Next;
    RunExtends(u, s, [], s, e[0]);
    assert [] + [e[0]] == e[..1] && e[..1] + [e[1]] == e[..2] && e[..2] + [e[2]] == e[..3] && e[..3] + [e[3]] == e[..4];
    assert e[..4] + [e[4]] == e[..5] && e[..5] + [e[5]] == e[..6] && e[..6] + [e[6]] == e;
    hide Run;
    RunExtends(u, s, e[..1], s1, e[1]);
    RunExtends(u, s, e[..2], s2, e[2]);
    RunExtends(u, s, e[..3], s3, e[3]);
    RunExtends(u, s, e[..4], s4, e[4]);
    RunExtends(u, s, e[..5], s5, e[5]);
    RunExtends(u, s, e[..6], s6, e[6]);
  }

  // ----- one undisturbed run -----

  predicate Undisturbed(e: Event) {
    e.Advance? || e.WriteChunk? || e.Scribble?
  }

  /** What holds at each point of an undisturbed retry; once it has stopped, the new image is on the flash. */
  predicate Retrying(u: Upgrade, s: State) {
    && |u.newImage| <= |s.flash|
    && match s.pc
       case Stopped => Holds(s.flash, u.newImage)
       case Patched | Verifying => Invariant(u, s) && s.file == u.patch(s.flash)
       case _ => Invariant(u, s)
  }

  lemma RetryingKeeps(u: Upgrade, s: State, e: Event)
    requires WellFormed(u) && Retrying(u, s) && Undisturbed(e) && Next(u, s, e).Some?
    ensures Retrying(u, Next(u, s, e).value)
  {
  }

  lemma {:induction false} RetryingRun(u: Upgrade, s: State, events: seq<Event>)
    requires WellFormed(u) && Retrying(u, s) && Run(u, s, events).Some?
    requires forall i | 0 <= i < |events| :: Undisturbed(events[i])
    ensures Retrying(u, Run(u, s, events).value)
    decreases |events|
  {
    hide Retrying, WellFormed, Next, Undisturbed;
    if events != [] {
      var n := |events| - 1;
      RetryingRun(u, s, events[..n]);
      RetryingKeeps(u, Run(u, s, events[..n]).value, events[n]);
    }
  }

  /** How far an undisturbed run is from its end. */
  function Distance(u: Upgrade, pc: Pc): nat {
    match pc
    case Start => 9
    case Patching => 8
    case Patched => 7
    case Verifying => 6
    case Flashing(at) => if at < |u.newImage| then 5 else 4
    case Marking => 3
    case Marked => 2
    case Removed => 1
    case Stopped => 0
  }

  lemma {:induction false} CanFinish(u: Upgrade, s: State) returns (events: seq<Event>)
    requires WellFormed(u) && Retrying(u, s)
    ensures forall i | 0 <= i < |events| :: Undisturbed(events[i])
    ensures Run(u, s, events).Some? && Run(u, s, events).value.pc == Stopped
    decreases Distance(u, s.pc)
  {
    if s.pc == Stopped {
      return [];
    }
    var e := if s.pc.Flashing? && s.pc.at < |u.newImage| then WriteChunk(|u.newImage| - s.pc.at) else Advance;
    RetryingKeeps(u, s, e);
    var rest := CanFinish(u, Next(u, s, e).value);
    hide Next, Run, Retrying, WellFormed;
    RunAfter(u, s, e, rest);
    events := [e] + rest;
  }

  /**
   From every state that a crash leaves, also after any gentle run of crashes and deaths: a retry can
   run to its end, every undisturbed retry that has come to its end has the new image on the flash,
   and the state meets what `Device.FlashNormal` asks for.
   */
  lemma RetryCompletes(u: Upgrade, flash: Image, events: seq<Event>)
    requires WellFormed(u) && Holds(flash, u.oldImage) && |u.newImage| <= |flash|
    requires Run(u, Initial(flash), events).Some? && GentleRun(u, Initial(flash), events)
    requires Run(u, Initial(flash), events).value.pc == Stopped
    ensures var s := Run(u, Initial(flash), events).value; var t := s.(pc := Start);
      && Next(u, s, Retry) == Some(t)
      && (exists more: seq<Event> :: FinishedRetry(u, t, more))
      && (forall more: seq<Event> | FinishedRetry(u, t, more) :: Holds(Run(u, t, more).value.flash, u.newImage))
      && (Holds(s.flash, u.oldImage) || Holds(s.flash, u.newImage) || s.file == Some(u.newImage))
  {
    hide Run, GentleRun, WellFormed;
    InitialInvariant(u, flash);
    RunKeeps(u, Initial(flash), events);
    var s := Run(u, Initial(flash), events).value;
    var t := s.(pc := Start);
    var some := CanFinish(u, t);
    assert FinishedRetry(u, t, some);
    forall more: seq<Event> | FinishedRetry(u, t, more) ensures Holds(Run(u, t, more).value.flash, u.newImage) {
      RetryingRun(u, t, more);
    }
  }

  /** An undisturbed run to the end. */
  ghost predicate FinishedRetry(u: Upgrade, s: State, events: seq<Event>) {
    && (forall i | 0 <= i < |events| :: Undisturbed(events[i]))
    && Run(u, s, events).Some? && Run(u, s, events).value.pc == Stopped
  }

  lemma OverwrittenNothing(flash: Image, image: Image)
    requires |image| <= |flash|
    ensures Overwritten(flash, image, 0) == flash
  {
  }

  lemma OverwrittenFurther(flash: Image, image: Image, at: nat, count: nat)
    requires at + count <= |image| <= |flash|
    ensures Overwritten(flash, image, at)[..at] + image[at..at + count] + Overwritten(flash, image, at)[at + count..]
         == Overwritten(flash, image, at + count)
  {
    assert image[..at] + image[at..at + count] == image[..at + count];
  }

  const BLOCK_WRITE_LEN := 0x4000

  /** The storage an upgrade works on. */
  class Device {
    const flash: array<byte>
    var file: Option<Image>
    /** The names of the partitions upgraded so far, each between `>` and `<`. */
    var doneFile: seq<byte>

    constructor (flash: array<byte>)
      ensures this.flash == flash && file == None && doneFile == []
    {
      this.flash, file, doneFile := flash, None, [];
    }

    /** `block_write`: copies the image to the start of the partition, a block at a time. */
    method BlockWrite(image: Image)
      requires |image| <= flash.Length
      modifies flash
      ensures flash[..] == Overwritten(old(flash[..]), image, |image|)
    {
      hide Overwritten;
      OverwrittenNothing(flash[..], image);
      var remain, at := |image|, 0;
      while remain > 0
        invariant at + remain == |image| && 0 <= remain
        invariant flash[..] == Overwritten(old(flash[..]), image, at)
        decreases remain
      {
        var count := if remain > BLOCK_WRITE_LEN then BLOCK_WRITE_LEN else remain;
        OverwrittenFurther(old(flash[..]), image, at, count);
        WriteBlock(image[at..at + count], at);
        at, remain := at + count, remain - count;
      }
    }

    method WriteBlock(block: Image, at: nat)
      requires at + |block| <= flash.Length
      modifies flash
      ensures flash[..] == old(flash[..])[..at] + block + old(flash[..])[at + |block|..]
    {
      forall i | 0 <= i < |block| {
        flash[at + i] := block[i];
      }
    }

    /** `do_patch_rkimg`: reuses a verified file, else patches and verifies; -1 on failure. */
    method DoPatch(u: Upgrade) returns (ret: int)
      requires u.newImage != []
      modifies this`file
      ensures ret == -1 || (ret == |u.newImage| && file == Some(u.newImage))
      ensures ret == -1 <==> old(file) != Some(u.newImage) && u.patch(flash[..]) != Some(u.newImage)
    {
      if file == Some(u.newImage) {
        return |u.newImage|;
      }
      file := u.patch(flash[..]);
      if file == Some(u.newImage) {
        return |u.newImage|;
      }
      return -1;
    }

    /** `flash_normal` on a block device. */
    method FlashNormal(u: Upgrade, pattern: seq<byte>) returns (ret: int)
      requires WellFormed(u) && |u.newImage| <= flash.Length && pattern != []
      requires Holds(flash[..], u.oldImage) || Holds(flash[..], u.newImage) || file == Some(u.newImage)
      modifies this, flash
      ensures Holds(flash[..], u.newImage)
      ensures ret == 0 ==> file == None && doneFile == old(doneFile) + pattern
      ensures ret != 0 ==> flash[..] == old(flash[..]) && doneFile == old(doneFile)
      ensures ret != 0 <==> old(file) != Some(u.newImage) && u.patch(old(flash[..])) != Some(u.newImage)
    {
      // the comparison, not the offset, is what becomes the size
      var end := |doneFile|;
      var size := if end < 0 then 1 else 0;
      var buf := doneFile[..size];
      if Contains(buf, pattern) {
        return 0;
      }
      ret := DoPatch(u);
      if ret < 0 {
        assert !Holds(flash[..], u.oldImage);
        return;
      }
      BlockWrite(file.value[..ret]);
      assert flash[..][..|u.newImage|] == u.newImage;
      ret := 0;
      doneFile := doneFile + pattern;
      file := None;
    }
  }

  /** `strstr`. */
  predicate Contains(s: seq<byte>, pattern: seq<byte>) {
    exists i | 0 <= i <= |s| :: pattern <= s[i..]
  }
}
