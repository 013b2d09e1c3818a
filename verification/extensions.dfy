/**
 The two core extensions of `Script`: `wait(duration)` and
 `tween(value, duration, tweenFunction, ease)`, both built from captured float
 locals and the primitive steps. The easing curve is any function
 `ease(start, end, fraction)`; the curves themselves are not modelled.
 */
module ScriptExtensionsCore {
  import AC = ActionChain
  import opened ChainProperties
  import opened Script

  /** `wait(duration)`: record the deadline now + duration, then wait until the
      clock reaches it. The deadline is a fresh local. */
  function Wait<W>(c: AC.Chain<W>, duration: real): (r: AC.Chain<W>)
    ensures Extends(c, r, [AC.SetDeadline(c.nextCell, duration), AC.WaitForDeadline(c.nextCell)])
    ensures r.nextCell == c.nextCell + 1
    ensures CellsAllocated(c) ==>
              && CellsAllocated(r)
              && forall i :: 0 <= i < |c.steps| ==> r.steps[|c.steps|].deadline !in r.steps[i].Cells()
  {
    var k := c.nextCell;
    Add(Add(c, AC.SetDeadline(k, duration)), AC.WaitForDeadline(k)).(nextCell := k + 1)
  }

  /** The first step of a `wait` records the deadline t0 + d and hands the
      tick on to the waiting step. */
  lemma WaitRecordsDeadline<W>(c: AC.Chain<W>, duration: real, rest: seq<AC.Step<W>>,
                               w: W, t0: real, fuel: nat)
    requires |c.steps| + 2 <= AC.MaxInt32
    ensures var b := Then(Wait(c, duration), rest).(index := |c.steps|);
            var held := b.(index := |c.steps| + 1, locals := c.locals[c.nextCell := t0 + duration]);
            var after := AC.Run(held, w, t0, fuel);
            AC.Run(b, w, t0, fuel + 1) == after.(ran := [|c.steps|] + after.ran)
  {
    var b := Then(Wait(c, duration), rest).(index := |c.steps|);
    assert b.steps[|c.steps|] == AC.SetDeadline(c.nextCell, duration);
    assert AC.Exec(b.steps[|c.steps|], b, w, t0)
           == AC.StepResult(true, b.(locals := c.locals[c.nextCell := t0 + duration]), w);
    RunContinuesAfterDoneStep(b, w, t0, fuel + 1);
  }

  /** The tick on which the cursor reaches a `wait(d)`, at time t0: it records
      the deadline t0 + d; then it holds on the waiting step, world untouched,
      exactly when d is positive, and otherwise carries on at once with whatever
      follows the wait. */
  lemma WaitEntry<W>(c: AC.Chain<W>, duration: real, rest: seq<AC.Step<W>>, w: W, t0: real, fuel: nat)
    requires |c.steps| + 2 <= AC.MaxInt32
    ensures var b := Then(Wait(c, duration), rest).(index := |c.steps|);
            var held := b.(index := |c.steps| + 1, locals := c.locals[c.nextCell := t0 + duration]);
            var entry := AC.Run(b, w, t0, fuel + 2);
            && (duration > 0.0 ==> entry == AC.RunResult(held, w, [|c.steps|, |c.steps| + 1], AC.Suspended))
            && (duration <= 0.0 ==>
                  var after := AC.Run(held.(index := |c.steps| + 2), w, t0, fuel);
                  entry == after.(ran := [|c.steps|, |c.steps| + 1] + after.ran))
  {
    WaitRecordsDeadline(c, duration, rest, w, t0, fuel + 1);
    var b := Then(Wait(c, duration), rest).(index := |c.steps|);
    var k := c.nextCell;
    var held := b.(index := |c.steps| + 1, locals := c.locals[k := t0 + duration]);
    var mid := AC.Run(held, w, t0, fuel + 1);
    assert AC.Run(b, w, t0, fuel + 2) == mid.(ran := [|c.steps|] + mid.ran);
    assert held.steps[|c.steps| + 1] == AC.WaitForDeadline(k);
    assert AC.Read(held.locals, k) == t0 + duration;
    RunOnWaitForDeadline(held, w, t0, fuel);
    if duration > 0.0 {
      assert mid == AC.RunResult(held, w, [|c.steps| + 1], AC.Suspended);
    } else {
      var after := AC.Run(held.(index := |c.steps| + 2), w, t0, fuel);
      assert mid == after.(ran := [|c.steps| + 1] + after.ran);
      PrependTwo(|c.steps|, |c.steps| + 1, after.ran);
    }
  }

  /** Once the cursor has reached a `wait(d)` at t0 and the chain holds on the
      waiting step, every tick earlier than t0 + d holds the chain exactly as it
      was, world untouched, and the first tick at or after t0 + d completes the
      wait and carries on with whatever follows it. */
  lemma WaitHoldsUntilDeadline<W>(c: AC.Chain<W>, duration: real, rest: seq<AC.Step<W>>,
                                  w: W, t0: real, w': W, t: real, fuel: nat)
    requires |c.steps| + 2 <= AC.MaxInt32
    ensures var b := Then(Wait(c, duration), rest).(index := |c.steps|);
            var held := b.(index := |c.steps| + 1, locals := c.locals[c.nextCell := t0 + duration]);
            var later := AC.Run(held, w', t, fuel + 1);
            && (duration > 0.0 ==> AC.Run(b, w, t0, fuel + 2).chain == held)
            && (t < t0 + duration ==> later == AC.RunResult(held, w', [|c.steps| + 1], AC.Suspended))
            && (t >= t0 + duration ==>
                  var after := AC.Run(held.(index := |c.steps| + 2), w', t, fuel);
                  later == after.(ran := [|c.steps| + 1] + after.ran))
  {
    WaitEntry(c, duration, rest, w, t0, fuel);
    var b := Then(Wait(c, duration), rest).(index := |c.steps|);
    var held := b.(index := |c.steps| + 1, locals := c.locals[c.nextCell := t0 + duration]);
    assert held.steps[|c.steps| + 1] == AC.WaitForDeadline(c.nextCell);
    assert AC.Read(held.locals, c.nextCell) == t0 + duration;
    RunOnWaitForDeadline(held, w', t, fuel);
  }

  /** The three steps `tween` appends, over the locals `cells`. */
  function TweenSteps<W>(cells: AC.TweenCells, value: real, duration: real,
                         apply: (W, real) -> W, ease: (real, real, real) -> real): seq<AC.Step<W>>
  {
    [ AC.TweenStart(cells, duration),
      AC.TweenAdvance(cells, value, duration, apply, ease),
      AC.TweenSnap(cells, value, apply, ease) ]
  }

  /** `tween(value, duration, tweenFunction, ease)`: exactly three steps (setup,
      a performUntil that passes on eased increments, a final snap) over three
      fresh, distinct locals. */
  function Tween<W>(c: AC.Chain<W>, value: real, duration: real,
                    apply: (W, real) -> W, ease: (real, real, real) -> real): (r: AC.Chain<W>)
    ensures var cells := AC.TweenCells(c.nextCell, c.nextCell + 1, c.nextCell + 2);
            && cells.Distinct()
            && Extends(c, r, TweenSteps(cells, value, duration, apply, ease))
            && |r.steps| == |c.steps| + 3
    ensures r.nextCell == c.nextCell + 3
    ensures CellsAllocated(c) ==>
              && CellsAllocated(r)
              && forall i :: 0 <= i < |c.steps| ==> r.steps[i].Cells() !! r.steps[|c.steps|].Cells()
  {
    var cells := AC.TweenCells(c.nextCell, c.nextCell + 1, c.nextCell + 2);
    var r := Add(Add(Add(c, AC.TweenStart(cells, duration)),
                     AC.TweenAdvance(cells, value, duration, apply, ease)),
                 AC.TweenSnap(cells, value, apply, ease));
    r.(nextCell := c.nextCell + 3)
  }

  /** The sum of a sequence of reals, added left to right. */
  function Sum(s: seq<real>): real
  {
    if s == [] then 0.0 else Sum(s[..|s| - 1]) + s[|s| - 1]
  }

  /** A `tweenFunction` that records every increment it is given. */
  function Record(log: seq<real>, delta: real): seq<real>
  {
    log + [delta]
  }

  /** The locals of a tween that is the first thing built on a new script. */
  const FirstCells: AC.TweenCells := AC.TweenCells(0, 1, 2)

  /** What holds of a script that is just one tween whose increments are recorded
      after `log0`: before it starts nothing is recorded; while it runs the
      increments sum to the last eased value; once done they sum to the eased
      end value `ease(0, value, 1)`. */
  ghost predicate TweenProgress(ch: AC.Chain<seq<real>>, log: seq<real>, log0: seq<real>,
                                value: real, duration: real, ease: (real, real, real) -> real)
  {
    && ch.steps == TweenSteps(FirstCells, value, duration, Record, ease)
    && ch.policy != AC.Loop
    && |log0| <= |log| && log[..|log0|] == log0
    && 0 <= ch.index <= 3
    && (ch.index == 0 ==> log == log0)
    && (ch.index == 1 || ch.index == 2 ==> Sum(log[|log0|..]) == AC.Read(ch.locals, FirstCells.prev))
    && (ch.index == 3 ==> Sum(log[|log0|..]) == ease(0.0, value, 1.0))
  }

  lemma SumRecord(log: seq<real>, log0: seq<real>, d: real)
    requires |log0| <= |log|
    ensures Record(log, d)[..|log0|] == log[..|log0|]
    ensures Record(log, d)[|log0|..] == log[|log0|..] + [d]
    ensures Sum(Record(log, d)[|log0|..]) == Sum(log[|log0|..]) + d
  {
    var tail := Record(log, d)[|log0|..];
    assert tail[..|tail| - 1] == log[|log0|..];
  }

  /** The tween's setup step records the start and end times, zeroes the
      previous value, applies nothing and completes. */
  lemma TweenStartKeepsProgress(ch: AC.Chain<seq<real>>, log: seq<real>, log0: seq<real>,
                                value: real, duration: real, ease: (real, real, real) -> real, t: real)
    requires TweenProgress(ch, log, log0, value, duration, ease) && ch.index == 0
    ensures var s := AC.Exec(ch.steps[0], ch, log, t);
            && s.done && s.world == log
            && AC.Read(s.chain.locals, FirstCells.start) == t
            && AC.Read(s.chain.locals, FirstCells.end) == t + duration
            && AC.Read(s.chain.locals, FirstCells.prev) == 0.0
            && TweenProgress(s.chain.(index := 1), s.world, log0, value, duration, ease)
  {
    var s := AC.Exec(ch.steps[0], ch, log, t);
    assert ch.steps[0] == AC.TweenStart(FirstCells, duration);
    var l := ch.locals[FirstCells.start := t][FirstCells.end := t + duration][FirstCells.prev := 0.0];
    assert s == AC.StepResult(true, ch.(locals := l), log);
    assert AC.Read(l, FirstCells.prev) == 0.0;
    assert log[|log0|..] == [];
  }

  /** The accounting half of the tween's performUntil step. */
  lemma TweenAdvanceSum(ch: AC.Chain<seq<real>>, log: seq<real>, log0: seq<real>,
                        value: real, duration: real, ease: (real, real, real) -> real, t: real)
    requires TweenProgress(ch, log, log0, value, duration, ease) && ch.index == 1
    ensures var s := AC.Exec(ch.steps[1], ch, log, t);
            TweenProgress(if s.done then s.chain.(index := 2) else s.chain, s.world,
                          log0, value, duration, ease)
  {
    var s := AC.Exec(ch.steps[1], ch, log, t);
    var cells := FirstCells;
    assert ch.steps[1] == AC.TweenAdvance(cells, value, duration, Record, ease);
    var prev := AC.Read(ch.locals, cells.prev);
    if t >= AC.Read(ch.locals, cells.end) {
      assert s == AC.StepResult(true, ch, log);
    } else {
      var val := ease(0.0, value, AC.Fraction(t - AC.Read(ch.locals, cells.start), duration));
      var l := ch.locals[cells.prev := val];
      assert s == AC.StepResult(false, ch.(locals := l), Record(log, val - prev));
      SumRecord(log, log0, val - prev);
      assert AC.Read(l, cells.prev) == val;
    }
  }

  /** The tween's performUntil step: at or after the end time it completes and
      applies nothing; before it, it applies the change in eased value since the
      last tick and records the new eased value. */
  lemma TweenAdvanceKeepsProgress(ch: AC.Chain<seq<real>>, log: seq<real>, log0: seq<real>,
                                  value: real, duration: real, ease: (real, real, real) -> real, t: real)
    requires TweenProgress(ch, log, log0, value, duration, ease) && ch.index == 1
    ensures var s := AC.Exec(ch.steps[1], ch, log, t);
            var prev := AC.Read(ch.locals, FirstCells.prev);
            var val := ease(0.0, value, AC.Fraction(t - AC.Read(ch.locals, FirstCells.start), duration));
            && (s.done <==> t >= AC.Read(ch.locals, FirstCells.end))
            && (s.done ==> s.world == log)
            && (!s.done ==> AC.Read(s.chain.locals, FirstCells.prev) == val && s.world == Record(log, val - prev))
            && TweenProgress(if s.done then s.chain.(index := 2) else s.chain, s.world,
                             log0, value, duration, ease)
  {
    TweenAdvanceSum(ch, log, log0, value, duration, ease, t);
    assert ch.steps[1] == AC.TweenAdvance(FirstCells, value, duration, Record, ease);
  }

  /** The tween's final step applies what is left to reach the eased end value,
      and completes. */
  lemma TweenSnapKeepsProgress(ch: AC.Chain<seq<real>>, log: seq<real>, log0: seq<real>,
                               value: real, duration: real, ease: (real, real, real) -> real, t: real)
    requires TweenProgress(ch, log, log0, value, duration, ease) && ch.index == 2
    ensures var s := AC.Exec(ch.steps[2], ch, log, t);
            && s.done
            && s.world == Record(log, ease(0.0, value, 1.0) - AC.Read(ch.locals, FirstCells.prev))
            && TweenProgress(s.chain.(index := 3), s.world, log0, value, duration, ease)
  {
    var s := AC.Exec(ch.steps[2], ch, log, t);
    assert ch.steps[2] == AC.TweenSnap(FirstCells, value, Record, ease);
    var prev := AC.Read(ch.locals, FirstCells.prev);
    assert s == AC.StepResult(true, ch, Record(log, ease(0.0, value, 1.0) - prev));
    SumRecord(log, log0, ease(0.0, value, 1.0) - prev);
  }

  /** One invocation of the tween's current step keeps its accounting, with
      the cursor advanced when the step reports done. When the advancing step
      holds the chain, the increments so far sum to the eased value of this
      tick's elapsed fraction. */
  lemma TweenExecKeepsProgress(ch: AC.Chain<seq<real>>, log: seq<real>, log0: seq<real>,
                               value: real, duration: real, ease: (real, real, real) -> real, t: real)
    requires TweenProgress(ch, log, log0, value, duration, ease) && ch.index < 3
    ensures var s := AC.Exec(ch.steps[ch.index], ch, log, t);
            && TweenProgress(if s.done then s.chain.(index := ch.index + 1) else s.chain, s.world,
                             log0, value, duration, ease)
            && (ch.index == 1 && !s.done ==>
                  Sum(s.world[|log0|..])
                  == ease(0.0, value, AC.Fraction(t - AC.Read(ch.locals, FirstCells.start), duration)))
  {
    if ch.index == 0 {
      TweenStartKeepsProgress(ch, log, log0, value, duration, ease, t);
    } else if ch.index == 1 {
      TweenAdvanceKeepsProgress(ch, log, log0, value, duration, ease, t);
    } else {
      TweenSnapKeepsProgress(ch, log, log0, value, duration, ease, t);
    }
  }

  /** A tick that reaches the end of the tween's steps keeps its accounting. */
  lemma TweenDoneRunKeepsProgress(ch: AC.Chain<seq<real>>, log: seq<real>, log0: seq<real>,
                                  value: real, duration: real, ease: (real, real, real) -> real,
                                  t: real, fuel: nat)
    requires TweenProgress(ch, log, log0, value, duration, ease) && ch.index == 3
    ensures var r := AC.Run(ch, log, t, fuel);
            r.halt == AC.Finished && r.world == log && TweenProgress(r.chain, r.world, log0, value, duration, ease)
  {
    assert AC.Run(ch, log, t, fuel) == AC.RunResult(AC.ApplyPolicy(ch), log, [], AC.Finished);
  }

  /** A tick that starts on the snap step keeps the tween's accounting. */
  lemma TweenSnapRunKeepsProgress(ch: AC.Chain<seq<real>>, log: seq<real>, log0: seq<real>,
                                  value: real, duration: real, ease: (real, real, real) -> real,
                                  t: real, fuel: nat)
    requires TweenProgress(ch, log, log0, value, duration, ease) && ch.index == 2
    ensures var r := AC.Run(ch, log, t, fuel);
            TweenProgress(r.chain, r.world, log0, value, duration, ease)
  {
    if fuel > 0 {
      TweenSnapKeepsProgress(ch, log, log0, value, duration, ease, t);
      var s := AC.Exec(ch.steps[2], ch, log, t);
      var next := s.chain.(index := AC.Inc32(s.chain.index));
      assert next.index == 3;
      TweenDoneRunKeepsProgress(next, s.world, log0, value, duration, ease, t, fuel - 1);
      RunContinuesAfterDoneStep(ch, log, t, fuel);
    }
  }

  /** A tick that starts on the advancing step keeps the tween's accounting. */
  lemma TweenAdvanceRunKeepsProgress(ch: AC.Chain<seq<real>>, log: seq<real>, log0: seq<real>,
                                     value: real, duration: real, ease: (real, real, real) -> real,
                                     t: real, fuel: nat)
    requires TweenProgress(ch, log, log0, value, duration, ease) && ch.index == 1
    ensures var r := AC.Run(ch, log, t, fuel);
            TweenProgress(r.chain, r.world, log0, value, duration, ease)
  {
    if fuel > 0 {
      TweenAdvanceKeepsProgress(ch, log, log0, value, duration, ease, t);
      var s := AC.Exec(ch.steps[1], ch, log, t);
      if s.done {
        var next := s.chain.(index := AC.Inc32(s.chain.index));
        assert next.index == 2;
        TweenSnapRunKeepsProgress(next, s.world, log0, value, duration, ease, t, fuel - 1);
        RunContinuesAfterDoneStep(ch, log, t, fuel);
      } else {
        RunSuspendsOnPendingStep(ch, log, t, fuel);
      }
    }
  }

  /** A tick that starts on the setup step keeps the tween's accounting. */
  lemma TweenStartRunKeepsProgress(ch: AC.Chain<seq<real>>, log: seq<real>, log0: seq<real>,
                                   value: real, duration: real, ease: (real, real, real) -> real,
                                   t: real, fuel: nat)
    requires TweenProgress(ch, log, log0, value, duration, ease) && ch.index == 0
    ensures var r := AC.Run(ch, log, t, fuel);
            TweenProgress(r.chain, r.world, log0, value, duration, ease)
  {
    if fuel > 0 {
      TweenStartKeepsProgress(ch, log, log0, value, duration, ease, t);
      var s := AC.Exec(ch.steps[0], ch, log, t);
      var next := s.chain.(index := AC.Inc32(s.chain.index));
      assert next.index == 1;
      TweenAdvanceRunKeepsProgress(next, s.world, log0, value, duration, ease, t, fuel - 1);
      RunContinuesAfterDoneStep(ch, log, t, fuel);
    }
  }

  /** One tick, whatever its time and budget, keeps the tween's accounting. */
  lemma TweenRunKeepsProgress(ch: AC.Chain<seq<real>>, log: seq<real>, log0: seq<real>,
                              value: real, duration: real, ease: (real, real, real) -> real,
                              t: real, fuel: nat)
    requires TweenProgress(ch, log, log0, value, duration, ease)
    ensures var r := AC.Run(ch, log, t, fuel);
            TweenProgress(r.chain, r.world, log0, value, duration, ease)
  {
    match ch.index
    case 0 => TweenStartRunKeepsProgress(ch, log, log0, value, duration, ease, t, fuel);
    case 1 => TweenAdvanceRunKeepsProgress(ch, log, log0, value, duration, ease, t, fuel);
    case 2 => TweenSnapRunKeepsProgress(ch, log, log0, value, duration, ease, t, fuel);
    case 3 => TweenDoneRunKeepsProgress(ch, log, log0, value, duration, ease, t, fuel);
  }

  /** Any sequence of frames keeps the tween's accounting. */
  lemma {:induction false} TweenTicksKeepProgress(ch: AC.Chain<seq<real>>, log: seq<real>, log0: seq<real>,
                                                  value: real, duration: real, ease: (real, real, real) -> real,
                                                  frames: seq<AC.Frame>, fuel: nat)
    requires TweenProgress(ch, log, log0, value, duration, ease)
    ensures var s := AC.Ticks(ch, log, frames, fuel);
            TweenProgress(s.chain, s.world, log0, value, duration, ease)
    decreases |frames|
  {
    if frames != [] {
      var r := AC.Tick(ch, log, frames[0].time, frames[0].phase, fuel);
      if r.halt != AC.Skipped {
        TweenRunKeepsProgress(ch, log, log0, value, duration, ease, frames[0].time, fuel);
      }
      TweenTicksKeepProgress(r.chain, r.world, log0, value, duration, ease, frames[1..], fuel);
    }
  }

  /** Delta accumulation: for a script that is one tween, whatever the times of
      its ticks (monotone or not, however many) and whatever the easing curve,
      the increments handed to `tweenFunction` sum, once the tween is done, to
      exactly `ease(0, value, 1)`; while it runs, they sum to the last eased
      value; and nothing recorded before it is disturbed. */
  lemma TweenIncrementsSumToEasedEnd(policy: AC.OnFinished, value: real, duration: real,
                                     ease: (real, real, real) -> real,
                                     log0: seq<real>, frames: seq<AC.Frame>, fuel: nat)
    requires policy != AC.Loop
    ensures var c := Tween(NewChain<seq<real>>(policy), value, duration, Record, ease);
            var s := AC.Ticks(c, log0, frames, fuel);
            && |log0| <= |s.world| && s.world[..|log0|] == log0
            && (s.chain.index == 3 ==> Sum(s.world[|log0|..]) == ease(0.0, value, 1.0))
            && (s.chain.index == 1 || s.chain.index == 2 ==>
                  Sum(s.world[|log0|..]) == AC.Read(s.chain.locals, FirstCells.prev))
  {
    var c := Tween(NewChain<seq<real>>(policy), value, duration, Record, ease);
    assert TweenProgress(c, log0, log0, value, duration, ease);
    TweenTicksKeepProgress(c, log0, log0, value, duration, ease, frames, fuel);
  }

  /** A running tween finishes on the first tick of its channel whose time has
      reached its end time, given a budget for the two remaining steps. */
  lemma TweenFinishesAtEndTime(ch: AC.Chain<seq<real>>, log: seq<real>, log0: seq<real>,
                               value: real, duration: real, ease: (real, real, real) -> real,
                               t: real, fuel: nat)
    requires TweenProgress(ch, log, log0, value, duration, ease)
    requires ch.index == 1 && ch.enabled && ch.life == AC.Alive && fuel >= 2
    ensures var r := AC.Tick(ch, log, t, ch.channel, fuel);
            && (r.halt == AC.Finished <==> t >= AC.Read(ch.locals, FirstCells.end))
            && (t < AC.Read(ch.locals, FirstCells.end) ==>
                  r.halt == AC.Suspended && r.chain.index == 1 && r.ran == [1])
            && (t >= AC.Read(ch.locals, FirstCells.end) ==>
                  && r.chain.index == 3 && r.ran == [1, 2]
                  && |log0| <= |r.world| && Sum(r.world[|log0|..]) == ease(0.0, value, 1.0))
  {
    TweenRunKeepsProgress(ch, log, log0, value, duration, ease, t, fuel);
    var s1 := AC.Exec(ch.steps[1], ch, log, t);
    if t >= AC.Read(ch.locals, FirstCells.end) {
      assert s1.done;
      var c2 := s1.chain.(index := 2);
      var s2 := AC.Exec(c2.steps[2], c2, s1.world, t);
      assert s2.done;
      var c3 := s2.chain.(index := 3);
      var r3 := AC.Run(c3, s2.world, t, fuel - 2);
      assert r3.halt == AC.Finished && r3.ran == [];
      assert AC.Run(c2, s1.world, t, fuel - 1) == r3.(ran := [2]);
    } else {
      assert !s1.done;
      RunSuspendsOnPendingStep(ch, log, t, fuel);
    }
  }
}
