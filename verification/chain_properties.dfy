/**
 Properties of one tick of an action chain, and of runs of ticks: the order in
 which steps are invoked, where the cursor stops, what the end-of-list policy
 leaves behind, and what a `setActionIndex` step does to the rest of the tick.
 */
module ChainProperties {
  import opened ActionChain

  /** The positions a, a+1, ..., b-1. */
  function Range(a: int, b: int): (r: seq<int>)
    decreases b - a
    ensures |r| == if a <= b then b - a else 0
    ensures forall k :: 0 <= k < |r| ==> r[k] == a + k
  {
    if a >= b then [] else [a] + Range(a + 1, b)
  }

  /** No step of the chain moves the cursor itself. */
  ghost predicate ForwardOnly<W>(c: Chain<W>)
  {
    forall i :: 0 <= i < |c.steps| ==> !c.steps[i].SetIndex?
  }

  /** The cursor of a forward-only chain lies within the list (or just past it). */
  ghost predicate CursorInRange<W>(c: Chain<W>)
  {
    0 <= c.index <= |c.steps| <= MaxInt32
  }

  /** A step that reports done hands the rest of the tick, with one invocation
      less of budget, to the chain with the cursor advanced. */
  lemma RunContinuesAfterDoneStep<W>(c: Chain<W>, w: W, t: real, fuel: nat)
    requires 0 <= c.index < |c.steps| && fuel > 0
    requires Exec(c.steps[c.index], c, w, t).done
    ensures var s := Exec(c.steps[c.index], c, w, t);
            var r := Run(s.chain.(index := Inc32(s.chain.index)), s.world, t, fuel - 1);
            var r0 := Run(c, w, t, fuel);
            r0.chain == r.chain && r0.world == r.world && r0.halt == r.halt && r0.ran == [c.index] + r.ran
  {
  }

  /** A step that reports not done ends the tick with the cursor on it. */
  lemma RunSuspendsOnPendingStep<W>(c: Chain<W>, w: W, t: real, fuel: nat)
    requires 0 <= c.index < |c.steps| && fuel > 0
    requires !Exec(c.steps[c.index], c, w, t).done
    ensures var s := Exec(c.steps[c.index], c, w, t);
            Run(c, w, t, fuel) == RunResult(s.chain, s.world, [c.index], Suspended)
  {
  }

  /** A tick that reaches the acting step of a timed `performFor` acts once and
      holds there while the clock is at most the deadline, and otherwise
      completes the step and carries on with the next one. */
  lemma RunOnPerformUntilPast<W>(c: Chain<W>, w: W, t: real, fuel: nat)
    requires 0 <= c.index < |c.steps| && c.index < MaxInt32 && c.steps[c.index].PerformUntilPast?
    ensures var s := c.steps[c.index];
            var r := Run(c, w, t, fuel + 1);
            && (t <= Read(c.locals, s.deadline) ==> r == RunResult(c, s.act(t, w), [c.index], Suspended))
            && (t > Read(c.locals, s.deadline) ==>
                  var after := Run(c.(index := c.index + 1), w, t, fuel);
                  r == after.(ran := [c.index] + after.ran))
  {
    var s := Exec(c.steps[c.index], c, w, t);
    if t > Read(c.locals, c.steps[c.index].deadline) {
      assert s == StepResult(true, c, w);
    } else {
      assert s == StepResult(false, c, c.steps[c.index].act(t, w));
    }
  }

  /** A tick that reaches the waiting step of a `wait` holds there, world
      untouched, while the clock is before the deadline, and otherwise
      completes the step and carries on with the next one. */
  lemma RunOnWaitForDeadline<W>(c: Chain<W>, w: W, t: real, fuel: nat)
    requires 0 <= c.index < |c.steps| && c.index < MaxInt32 && c.steps[c.index].WaitForDeadline?
    ensures var s := c.steps[c.index];
            var r := Run(c, w, t, fuel + 1);
            && (t < Read(c.locals, s.deadline) ==> r == RunResult(c, w, [c.index], Suspended))
            && (t >= Read(c.locals, s.deadline) ==>
                  var after := Run(c.(index := c.index + 1), w, t, fuel);
                  r == after.(ran := [c.index] + after.ran))
  {
    var s := Exec(c.steps[c.index], c, w, t);
    if t >= Read(c.locals, c.steps[c.index].deadline) {
      assert s == StepResult(true, c, w);
    } else {
      assert s == StepResult(false, c, w);
    }
  }

  /** Every step a tick invokes is a position of the list: the guards on the
      cursor come before every invocation, even after a `setActionIndex` jump. */
  lemma {:induction false} RunInvokesListedSteps<W>(c: Chain<W>, w: W, t: real, fuel: nat)
    ensures forall k :: 0 <= k < |Run(c, w, t, fuel).ran| ==> 0 <= Run(c, w, t, fuel).ran[k] < |c.steps|
    decreases fuel
  {
    if 0 <= c.index < |c.steps| && fuel > 0 {
      var s := Exec(c.steps[c.index], c, w, t);
      if s.done {
        var next := s.chain.(index := Inc32(s.chain.index));
        RunInvokesListedSteps(next, s.world, t, fuel - 1);
        var r' := Run(next, s.world, t, fuel - 1);
        var ran := Run(c, w, t, fuel).ran;
        assert ran == [c.index] + r'.ran;
        forall k | 0 <= k < |ran|
          ensures 0 <= ran[k] < |c.steps|
        {
          if k > 0 {
            assert ran[k] == r'.ran[k - 1];
            assert next.steps == c.steps;
            assert 0 <= r'.ran[k - 1] < |next.steps|;
          }
        }
      }
    }
  }

  /** Without `setActionIndex` steps, a tick invokes consecutive steps starting
      at the cursor, never one before it. */
  lemma {:induction false} ForwardRunIsConsecutive<W>(c: Chain<W>, w: W, t: real, fuel: nat)
    requires ForwardOnly(c) && CursorInRange(c)
    ensures forall k :: 0 <= k < |Run(c, w, t, fuel).ran| ==> Run(c, w, t, fuel).ran[k] == c.index + k
    decreases fuel
  {
    if c.index < |c.steps| && fuel > 0 {
      var s := Exec(c.steps[c.index], c, w, t);
      assert !c.steps[c.index].SetIndex?;
      if s.done {
        var next := s.chain.(index := Inc32(s.chain.index));
        assert ForwardOnly(next) && CursorInRange(next);
        ForwardRunIsConsecutive(next, s.world, t, fuel - 1);
        var r' := Run(next, s.world, t, fuel - 1);
        var ran := Run(c, w, t, fuel).ran;
        assert ran == [c.index] + r'.ran;
        forall k | 0 <= k < |ran|
          ensures ran[k] == c.index + k
        {
          if k > 0 {
            assert ran[k] == r'.ran[k - 1];
          }
        }
      }
    }
  }

  /** Without `setActionIndex` steps, a tick leaves the cursor on the step that
      reported not done, or just past the last step it invoked; a tick that
      finishes has invoked every step from the cursor to the end; the cursor
      never leaves the list, so the tick never faults. */
  lemma {:induction false} ForwardRunCursor<W>(c: Chain<W>, w: W, t: real, fuel: nat)
    requires ForwardOnly(c) && CursorInRange(c)
    ensures var r := Run(c, w, t, fuel);
            && (r.halt == Finished ==> c.index + |r.ran| == |c.steps|)
            && (r.halt == Suspended ==> r.chain.index == c.index + |r.ran| - 1)
            && (r.halt == Hung ==> r.chain.index == c.index + |r.ran|)
            && ForwardOnly(r.chain) && CursorInRange(r.chain) && r.halt != Fault
    decreases fuel
  {
    if c.index < |c.steps| && fuel > 0 {
      var s := Exec(c.steps[c.index], c, w, t);
      assert !c.steps[c.index].SetIndex?;
      if s.done {
        var next := s.chain.(index := Inc32(s.chain.index));
        assert ForwardOnly(next) && CursorInRange(next);
        ForwardRunCursor(next, s.world, t, fuel - 1);
      }
    }
  }

  /** Without `setActionIndex` steps, a budget of one invocation per remaining
      step is enough for a tick to end on its own. */
  lemma {:induction false} ForwardRunTerminates<W>(c: Chain<W>, w: W, t: real, fuel: nat)
    requires ForwardOnly(c) && CursorInRange(c)
    requires fuel >= |c.steps| - c.index
    ensures Run(c, w, t, fuel).halt in {Suspended, Finished}
    decreases fuel
  {
    if c.index < |c.steps| {
      var s := Exec(c.steps[c.index], c, w, t);
      assert !c.steps[c.index].SetIndex?;
      if s.done {
        var next := s.chain.(index := Inc32(s.chain.index));
        assert ForwardOnly(next) && CursorInRange(next);
        ForwardRunTerminates(next, s.world, t, fuel - 1);
      }
    }
  }

  /** Drain: when every step from the cursor on completes whatever the clock and
      the world, one tick invokes them all in order and applies the policy; under
      Loop the cursor returns to 0 and nothing more runs in that tick. */
  lemma {:induction false} DrainAppliesPolicy<W>(c: Chain<W>, w: W, t: real, fuel: nat)
    requires CursorInRange(c)
    requires forall i :: c.index <= i < |c.steps| ==> c.steps[i].Immediate()
    requires fuel >= |c.steps| - c.index
    ensures var r := Run(c, w, t, fuel);
            && r.halt == Finished
            && r.ran == Range(c.index, |c.steps|)
            && r.chain.index == (if c.policy == Loop then 0 else |c.steps|)
            && r.chain.enabled == (c.enabled && c.policy != DisableBehavior)
            && r.chain.life == LifeAfter(c.policy, c.life)
    decreases fuel
  {
    if c.index < |c.steps| {
      var s := Exec(c.steps[c.index], c, w, t);
      var next := s.chain.(index := Inc32(s.chain.index));
      DrainAppliesPolicy(next, s.world, t, fuel - 1);
    }
  }

  /** A chain none of whose ticks runs: it is disabled, or its component or owner is gone. */
  ghost predicate Idle<W>(c: Chain<W>)
  {
    !c.enabled || c.life != Alive
  }

  /** An idle chain is untouched by any sequence of frames. */
  lemma {:induction false} IdleStaysIdle<W>(c: Chain<W>, w: W, frames: seq<Frame>, fuel: nat)
    requires Idle(c)
    ensures Ticks(c, w, frames, fuel) == State(c, w)
    decreases |frames|
  {
    if frames != [] {
      IdleStaysIdle(c, w, frames[1..], fuel);
    }
  }

  /** Every policy but Loop ends the chain's ticking for good: once a tick has
      finished the list, no later frame invokes a step or changes anything. */
  lemma {:induction false} FinishedChainStaysIdle<W>(c: Chain<W>, w: W, t: real, phase: Channel, fuel: nat,
                                  w': W, frames: seq<Frame>, fuel': nat)
    requires c.policy != Loop
    requires Tick(c, w, t, phase, fuel).halt == Finished
    ensures var r := Tick(c, w, t, phase, fuel);
            Ticks(r.chain, w', frames, fuel') == State(r.chain, w')
  {
    var r := Tick(c, w, t, phase, fuel);
    assert Idle(r.chain);
    IdleStaysIdle(r.chain, w', frames, fuel');
  }

  /** Under Loop a finishing tick leaves the chain live with the cursor on step
      0, and the next tick on its channel starts again from step 0. */
  lemma LoopRestartsFromFirstStep<W>(c: Chain<W>, w: W, t: real, phase: Channel, fuel: nat,
                                     w': W, t': real, fuel': nat)
    requires c.policy == Loop
    requires Tick(c, w, t, phase, fuel).halt == Finished
    requires |c.steps| > 0 && fuel' > 0
    ensures var r := Tick(c, w, t, phase, fuel);
            && r.chain.index == 0 && r.chain.enabled && r.chain.life == Alive
            && var r2 := Tick(r.chain, w', t', r.chain.channel, fuel');
            && r2.halt != Skipped && |r2.ran| > 0 && r2.ran[0] == 0
  {
  }

  /** A step that reports not done, seen again under the same conditions, holds
      the chain in place: repeated frames neither move the cursor nor invoke any
      other step. */
  lemma {:induction false} BlockedWaitHoldsChain<W>(c: Chain<W>, w: W, frames: seq<Frame>, fuel: nat)
    requires 0 <= c.index < |c.steps| && c.steps[c.index].WaitUntil?
    requires forall k :: 0 <= k < |frames| ==> !c.steps[c.index].cond(frames[k].time, w)
    ensures Ticks(c, w, frames, fuel) == State(c, w)
    ensures forall k :: 0 <= k < |frames| ==>
              Tick(c, w, frames[k].time, frames[k].phase, fuel).ran in {[], [c.index]}
    decreases |frames|
  {
    if frames != [] {
      BlockedWaitHoldsChain(c, w, frames[1..], fuel);
    }
  }

  /** A `setActionIndex(v)` step sets the cursor to v and reports done; the
      loop's `index++` then continues at v+1 in the same tick. Past the end the
      policy applies at once; below 0 (or on wrap-around at the top of `int`)
      the list indexer faults. */
  lemma SetIndexContinuesAfterTarget<W>(c: Chain<W>, w: W, t: real, fuel: nat)
    requires 0 <= c.index < |c.steps| && c.steps[c.index].SetIndex?
    ensures var v := c.steps[c.index].target;
            var r := Run(c, w, t, fuel + 1);
            && (var rest := Run(c.(index := Inc32(v)), w, t, fuel);
                r == rest.(ran := [c.index] + rest.ran))
            && (-1 <= v < MaxInt32 && v + 1 < |c.steps| && fuel > 0 ==> r.ran[..2] == [c.index, v + 1])
            && (v < MaxInt32 && v + 1 >= |c.steps| ==>
                  r == RunResult(ApplyPolicy(c.(index := v + 1)), w, [c.index], Finished))
            && (v < -1 || v == MaxInt32 ==> r.halt == Fault && r.ran == [c.index])
  {
  }

  /** Without `setActionIndex` steps and with no channel step at or after the
      cursor, a tick leaves the channel as it found it. */
  lemma {:induction false} RunKeepsChannel<W>(c: Chain<W>, w: W, t: real, fuel: nat)
    requires ForwardOnly(c) && CursorInRange(c)
    requires forall i :: c.index <= i < |c.steps| ==> !c.steps[i].SetChannel?
    ensures Run(c, w, t, fuel).chain.channel == c.channel
    decreases fuel
  {
    if c.index < |c.steps| && fuel > 0 {
      var s := Exec(c.steps[c.index], c, w, t);
      assert !c.steps[c.index].SetIndex?;
      if s.done {
        var next := s.chain.(index := Inc32(s.chain.index));
        assert ForwardOnly(next) && CursorInRange(next);
        RunKeepsChannel(next, s.world, t, fuel - 1);
      }
    }
  }

  /** A channel step switches the phase but not the current tick: the rest of
      the tick still runs. With no later channel step and no cursor jump, the
      chain then belongs to the new phase, and a tick of the other phase skips it. */
  lemma ChannelStepTakesEffectNextTick<W>(c: Chain<W>, w: W, t: real, fuel: nat,
                                          w': W, t': real, fuel': nat)
    requires ForwardOnly(c) && CursorInRange(c)
    requires c.index < |c.steps| && c.steps[c.index].SetChannel?
    requires forall i :: c.index < i < |c.steps| ==> !c.steps[i].SetChannel?
    ensures var ch := c.steps[c.index].channel;
            var r := Run(c, w, t, fuel + 1);
            && (var rest := Run(c.(channel := ch, index := c.index + 1), w, t, fuel);
                r == rest.(ran := [c.index] + rest.ran))
            && r.chain.channel == ch
            && (ch == Update ==> Tick(r.chain, w', t', FixedUpdate, fuel').halt == Skipped)
            && (ch == FixedUpdate ==> Tick(r.chain, w', t', Update, fuel').halt == Skipped)
  {
    var next := c.(channel := c.steps[c.index].channel, index := c.index + 1);
    assert ForwardOnly(next) && CursorInRange(next);
    RunKeepsChannel(next, w, t, fuel);
  }

  /** A looping chain of perform steps, cursor on step 0, is back in the very
      same state after any sequence of frames: every tick of its channel invokes
      all its steps in order and returns the cursor to 0, so each cycle repeats
      the same actions in the same order. */
  lemma {:induction false} LoopingDrainRepeats<W>(c: Chain<W>, w: W, frames: seq<Frame>, fuel: nat)
    requires c.policy == Loop && c.index == 0 && |c.steps| <= MaxInt32
    requires forall i :: 0 <= i < |c.steps| ==> c.steps[i].Perform?
    requires fuel >= |c.steps|
    ensures Ticks(c, w, frames, fuel).chain == c
    ensures forall k :: 0 <= k < |frames| && frames[k].phase == c.channel && c.enabled && c.life == Alive ==>
              var s := Ticks(c, w, frames[..k], fuel);
              Tick(s.chain, s.world, frames[k].time, frames[k].phase, fuel).ran == Range(0, |c.steps|)
    decreases |frames|
  {
    forall k | 0 <= k < |frames| && frames[k].phase == c.channel && c.enabled && c.life == Alive
      ensures var s := Ticks(c, w, frames[..k], fuel);
              Tick(s.chain, s.world, frames[k].time, frames[k].phase, fuel).ran == Range(0, |c.steps|)
    {
      LoopingDrainRepeats(c, w, frames[..k], fuel);
      DrainAppliesPolicy(c, Ticks(c, w, frames[..k], fuel).world, frames[k].time, fuel);
    }
    if frames != [] {
      var r := Tick(c, w, frames[0].time, frames[0].phase, fuel);
      if r.halt != Skipped {
        DrainAppliesPolicy(c, w, frames[0].time, fuel);
        LoopDrainRestores(c, w, frames[0].time, fuel);
      }
      assert r.chain == c;
      LoopingDrainRepeats(c, r.world, frames[1..], fuel);
    }
  }

  /** One draining tick of a looping chain of perform steps gives back the chain it started from. */
  lemma {:induction false} LoopDrainRestores<W>(c: Chain<W>, w: W, t: real, fuel: nat)
    requires c.policy == Loop && 0 <= c.index <= |c.steps| <= MaxInt32
    requires forall i :: 0 <= i < |c.steps| ==> c.steps[i].Perform?
    ensures Run(c, w, t, fuel).halt == Finished ==> Run(c, w, t, fuel).chain == c.(index := 0)
    decreases fuel
  {
    if c.index < |c.steps| && fuel > 0 {
      var s := Exec(c.steps[c.index], c, w, t);
      LoopDrainRestores(s.chain.(index := Inc32(s.chain.index)), s.world, t, fuel - 1);
    }
  }
}
