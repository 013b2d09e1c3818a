/**
 The `Script` builder: a fluent handle over one action chain. Every builder
 call appends steps to the chain and returns it; `loop`, `setOnFinished`,
 `pause` and `resume` change one control field and nothing else.
 */
module Script {
  import AC = ActionChain
  import opened ChainProperties

  /** `new Script(gameObject, onScriptFinished)`: a fresh, enabled, empty chain
      on the fixed-rate channel with its cursor on step 0. */
  function NewChain<W>(policy: AC.OnFinished): (r: AC.Chain<W>)
    ensures r.steps == [] && r.index == 0 && r.enabled && r.life == AC.Alive
    ensures r.channel == AC.FixedUpdate && r.policy == policy
    ensures r.locals == map[] && r.nextCell == 0
    ensures CellsAllocated(r)
  {
    AC.Chain([], 0, true, AC.FixedUpdate, policy, AC.Alive, map[], 0)
  }

  /** Every local a step of the script uses has already been handed out by the
      builder: it is numbered below `nextCell`. A builder call that takes
      `nextCell` as its new local therefore shares it with no earlier step. */
  predicate CellsAllocated<W>(c: AC.Chain<W>)
  {
    forall i :: 0 <= i < |c.steps| ==> c.steps[i].CellsBelow(c.nextCell)
  }

  /** `r` is `c` with `added` appended to its steps; cursor, flag, channel,
      policy, component state and locals are untouched. */
  ghost predicate Extends<W>(c: AC.Chain<W>, r: AC.Chain<W>, added: seq<AC.Step<W>>)
  {
    && r.steps == c.steps + added
    && r.index == c.index
    && r.enabled == c.enabled
    && r.channel == c.channel
    && r.policy == c.policy
    && r.life == c.life
    && r.locals == c.locals
  }

  /** `add(action)`: append one step. */
  function Add<W>(c: AC.Chain<W>, s: AC.Step<W>): (r: AC.Chain<W>)
    ensures Extends(c, r, [s]) && r.nextCell == c.nextCell
    ensures CellsAllocated(c) && s.CellsBelow(c.nextCell) ==> CellsAllocated(r)
  {
    c.(steps := c.steps + [s])
  }

  /** `perform(action)`. */
  function Perform<W>(c: AC.Chain<W>, act: (real, W) -> W): (r: AC.Chain<W>)
    ensures Extends(c, r, [AC.Perform(act)]) && r.nextCell == c.nextCell
    ensures CellsAllocated(c) ==> CellsAllocated(r)
  {
    Add(c, AC.Perform(act))
  }

  /** `performUntil(action, condition)`. */
  function PerformUntil<W>(c: AC.Chain<W>, act: (real, W) -> W, cond: (real, W) -> bool): (r: AC.Chain<W>)
    ensures Extends(c, r, [AC.PerformUntil(act, cond)]) && r.nextCell == c.nextCell
    ensures CellsAllocated(c) ==> CellsAllocated(r)
  {
    Add(c, AC.PerformUntil(act, cond))
  }

  /** `waitUntil(condition)`: the condition itself is the step. */
  function WaitUntil<W>(c: AC.Chain<W>, cond: (real, W) -> bool): (r: AC.Chain<W>)
    ensures Extends(c, r, [AC.WaitUntil(cond)]) && r.nextCell == c.nextCell
    ensures CellsAllocated(c) ==> CellsAllocated(r)
  {
    Add(c, AC.WaitUntil(cond))
  }

  /** `performIf(condition, action, elseAction)` with a condition read when the
      step runs. A missing else-action is the identity `(t, w) => w`. */
  function PerformIf<W>(c: AC.Chain<W>, cond: (real, W) -> bool,
                        act: (real, W) -> W, orElse: (real, W) -> W): (r: AC.Chain<W>)
    ensures |r.steps| == |c.steps| + 1 && Extends(c, r, r.steps[|c.steps|..])
    ensures r.steps[|c.steps|].Perform?
    ensures r.nextCell == c.nextCell
    ensures CellsAllocated(c) ==> CellsAllocated(r)
  {
    Perform(c, (t, w) => if cond(t, w) then act(t, w) else orElse(t, w))
  }

  /** The step `performIf` appends reads its condition when it runs, takes
      exactly one of the two branches, and always completes. */
  lemma PerformIfTakesOneBranch<W>(c: AC.Chain<W>, cond: (real, W) -> bool,
                                   act: (real, W) -> W, orElse: (real, W) -> W,
                                   d: AC.Chain<W>, w: W, t: real)
    ensures var s := AC.Exec(PerformIf(c, cond, act, orElse).steps[|c.steps|], d, w, t);
            && s.done && s.chain == d
            && (cond(t, w) ==> s.world == act(t, w))
            && (!cond(t, w) ==> s.world == orElse(t, w))
  {
  }

  /** `performIf(bool, action, elseAction)`: the condition is fixed when the
      script is built, so the step always runs the same branch. */
  function PerformIfValue<W>(c: AC.Chain<W>, cond: bool,
                             act: (real, W) -> W, orElse: (real, W) -> W): (r: AC.Chain<W>)
    ensures Extends(c, r, [AC.Perform(if cond then act else orElse)])
    ensures r.nextCell == c.nextCell
    ensures CellsAllocated(c) ==> CellsAllocated(r)
  {
    Perform(c, if cond then act else orElse)
  }

  /** `performFor(action, times)`: unrolled when the script is built into
      `times` perform steps; none when `times` is not positive. */
  function PerformForTimes<W>(c: AC.Chain<W>, act: (real, W) -> W, times: AC.Int32): (r: AC.Chain<W>)
    decreases if times > 0 then times else 0
    ensures |r.steps| == |c.steps| + (if times > 0 then times else 0)
    ensures Extends(c, r, r.steps[|c.steps|..]) && r.nextCell == c.nextCell
    ensures forall i :: |c.steps| <= i < |r.steps| ==> r.steps[i] == AC.Perform(act)
    ensures CellsAllocated(c) ==> CellsAllocated(r)
  {
    if times <= 0 then c else PerformForTimes(Perform(c, act), act, times - 1)
  }

  /** `performFor(action, duration)`: record the deadline now + duration, then
      act on every tick until the clock is strictly past it. The deadline is a
      fresh local. */
  function PerformForDuration<W>(c: AC.Chain<W>, act: (real, W) -> W, duration: real): (r: AC.Chain<W>)
    ensures Extends(c, r, [AC.SetDeadline(c.nextCell, duration), AC.PerformUntilPast(act, c.nextCell)])
    ensures r.nextCell == c.nextCell + 1
    ensures CellsAllocated(c) ==>
              && CellsAllocated(r)
              && forall i :: 0 <= i < |c.steps| ==> r.steps[|c.steps|].deadline !in r.steps[i].Cells()
  {
    var k := c.nextCell;
    Add(Add(c, AC.SetDeadline(k, duration)), AC.PerformUntilPast(act, k)).(nextCell := k + 1)
  }

  /** `setChannelUpdate`: a step that moves the chain to the variable-rate phase. */
  function SetChannelUpdate<W>(c: AC.Chain<W>): (r: AC.Chain<W>)
    ensures Extends(c, r, [AC.SetChannel(AC.Update)]) && r.nextCell == c.nextCell
    ensures CellsAllocated(c) ==> CellsAllocated(r)
  {
    Add(c, AC.SetChannel(AC.Update))
  }

  /** `setChannelFixedUpdate`: a step that moves the chain to the fixed-rate phase. */
  function SetChannelFixedUpdate<W>(c: AC.Chain<W>): (r: AC.Chain<W>)
    ensures Extends(c, r, [AC.SetChannel(AC.FixedUpdate)]) && r.nextCell == c.nextCell
    ensures CellsAllocated(c) ==> CellsAllocated(r)
  {
    Add(c, AC.SetChannel(AC.FixedUpdate))
  }

  /** `setActionIndex(value)`: a step that moves the cursor. */
  function SetActionIndex<W>(c: AC.Chain<W>, value: AC.Int32): (r: AC.Chain<W>)
    ensures Extends(c, r, [AC.SetIndex(value)]) && r.nextCell == c.nextCell
    ensures CellsAllocated(c) ==> CellsAllocated(r)
  {
    Add(c, AC.SetIndex(value))
  }

  /** `setOnFinished(value)`: replace the end-of-list policy, at build time. */
  function SetOnFinished<W>(c: AC.Chain<W>, policy: AC.OnFinished): (r: AC.Chain<W>)
    ensures r.policy == policy
    ensures r.steps == c.steps && r.index == c.index && r.enabled == c.enabled
    ensures r.channel == c.channel && r.life == c.life && r.locals == c.locals && r.nextCell == c.nextCell
  {
    c.(policy := policy)
  }

  /** `loop()`: the policy becomes Loop; no step is appended. */
  function Loop<W>(c: AC.Chain<W>): (r: AC.Chain<W>)
    ensures r.policy == AC.Loop
    ensures r.steps == c.steps && r.index == c.index && r.enabled == c.enabled
    ensures r.channel == c.channel && r.life == c.life && r.locals == c.locals && r.nextCell == c.nextCell
  {
    SetOnFinished(c, AC.Loop)
  }

  /** `pause()`: disable the component. */
  function Pause<W>(c: AC.Chain<W>): (r: AC.Chain<W>)
    ensures !r.enabled
    ensures r.steps == c.steps && r.index == c.index && r.policy == c.policy
    ensures r.channel == c.channel && r.life == c.life && r.locals == c.locals && r.nextCell == c.nextCell
  {
    c.(enabled := false)
  }

  /** `resume()`: enable the component. */
  function Resume<W>(c: AC.Chain<W>): (r: AC.Chain<W>)
    ensures r.enabled
    ensures r.steps == c.steps && r.index == c.index && r.policy == c.policy
    ensures r.channel == c.channel && r.life == c.life && r.locals == c.locals && r.nextCell == c.nextCell
  {
    c.(enabled := true)
  }

  /** Pausing an enabled chain and resuming it after any frames gives back the
      very chain that was paused, world untouched: it carries on at the step it
      was suspended on, none skipped and none repeated. */
  lemma {:induction false} PauseThenResumeIsTransparent<W>(c: AC.Chain<W>, w: W, frames: seq<AC.Frame>, fuel: nat)
    requires c.enabled
    ensures var s := AC.Ticks(Pause(c), w, frames, fuel);
            Resume(s.chain) == c && s.world == w
  {
    IdleStaysIdle(Pause(c), w, frames, fuel);
  }

  /** A chain that disabled itself at the end of its list and is then resumed
      invokes no step on its next tick and disables itself again. */
  lemma ResumedFinishedChainDisablesAgain<W>(c: AC.Chain<W>, w: W, t: real, fuel: nat)
    requires c.policy == AC.DisableBehavior && c.life == AC.Alive
    requires c.index >= |c.steps|
    ensures var r := AC.Tick(Resume(c), w, t, c.channel, fuel);
            r == AC.RunResult(Pause(c), w, [], AC.Finished)
  {
  }

  /** The script `b` with the steps `rest` built after it: whatever builder
      calls follow, they only append. */
  function Then<W>(b: AC.Chain<W>, rest: seq<AC.Step<W>>): (r: AC.Chain<W>)
    ensures Extends(b, r, rest) && r.nextCell == b.nextCell
  {
    b.(steps := b.steps + rest)
  }

  lemma PrependTwo(i: int, j: int, ran: seq<int>)
    ensures [i] + ([j] + ran) == [i, j] + ran
  {
  }

  /** A performUntil step checks before it acts: on the tick its condition holds
      it completes without acting and the tick carries on with whatever follows
      it; otherwise it acts once and holds the cursor. */
  lemma PerformUntilChecksFirst<W>(c: AC.Chain<W>, act: (real, W) -> W, cond: (real, W) -> bool,
                                   rest: seq<AC.Step<W>>, w: W, t: real, fuel: nat)
    requires |c.steps| < AC.MaxInt32
    ensures var b := Then(PerformUntil(c, act, cond), rest).(index := |c.steps|);
            var r := AC.Run(b, w, t, fuel + 1);
            && (cond(t, w) ==>
                  var after := AC.Run(b.(index := |c.steps| + 1), w, t, fuel);
                  r == after.(ran := [|c.steps|] + after.ran))
            && (!cond(t, w) ==> r == AC.RunResult(b, act(t, w), [|c.steps|], AC.Suspended))
  {
    var b := Then(PerformUntil(c, act, cond), rest).(index := |c.steps|);
    assert b.steps[|c.steps|] == AC.PerformUntil(act, cond);
  }

  /** The first step of a timed `performFor` records the deadline t0 + duration
      and hands the tick on to the acting step. */
  lemma PerformForDurationRecordsDeadline<W>(c: AC.Chain<W>, act: (real, W) -> W, duration: real,
                                             rest: seq<AC.Step<W>>, w: W, t0: real, fuel: nat)
    requires |c.steps| + 2 <= AC.MaxInt32
    ensures var b := Then(PerformForDuration(c, act, duration), rest).(index := |c.steps|);
            var held := b.(index := |c.steps| + 1, locals := c.locals[c.nextCell := t0 + duration]);
            var after := AC.Run(held, w, t0, fuel);
            AC.Run(b, w, t0, fuel + 1) == after.(ran := [|c.steps|] + after.ran)
  {
    var b := Then(PerformForDuration(c, act, duration), rest).(index := |c.steps|);
    assert b.steps[|c.steps|] == AC.SetDeadline(c.nextCell, duration);
    assert AC.Exec(b.steps[|c.steps|], b, w, t0)
           == AC.StepResult(true, b.(locals := c.locals[c.nextCell := t0 + duration]), w);
    RunContinuesAfterDoneStep(b, w, t0, fuel + 1);
  }

  /** The tick on which the cursor reaches a timed `performFor`, at time t0: it
      records the deadline t0 + duration; then the acting step either acts once
      and suspends, or (a negative duration) completes at once and the tick
      carries on with whatever follows it. */
  lemma PerformForDurationEntry<W>(c: AC.Chain<W>, act: (real, W) -> W, duration: real,
                                   rest: seq<AC.Step<W>>, w: W, t0: real, fuel: nat)
    requires |c.steps| + 2 <= AC.MaxInt32
    ensures var b := Then(PerformForDuration(c, act, duration), rest).(index := |c.steps|);
            var held := b.(index := |c.steps| + 1, locals := c.locals[c.nextCell := t0 + duration]);
            var entry := AC.Run(b, w, t0, fuel + 2);
            && (duration >= 0.0 ==>
                  entry == AC.RunResult(held, act(t0, w), [|c.steps|, |c.steps| + 1], AC.Suspended))
            && (duration < 0.0 ==>
                  var after := AC.Run(held.(index := |c.steps| + 2), w, t0, fuel);
                  entry == after.(ran := [|c.steps|, |c.steps| + 1] + after.ran))
  {
    PerformForDurationRecordsDeadline(c, act, duration, rest, w, t0, fuel + 1);
    var b := Then(PerformForDuration(c, act, duration), rest).(index := |c.steps|);
    var held := b.(index := |c.steps| + 1, locals := c.locals[c.nextCell := t0 + duration]);
    assert held.steps[|c.steps| + 1] == AC.PerformUntilPast(act, c.nextCell);
    assert AC.Read(held.locals, c.nextCell) == t0 + duration;
    RunOnPerformUntilPast(held, w, t0, fuel);
    var mid := AC.Run(held, w, t0, fuel + 1);
    assert AC.Run(b, w, t0, fuel + 2) == mid.(ran := [|c.steps|] + mid.ran);
    if duration >= 0.0 {
      assert mid == AC.RunResult(held, act(t0, w), [|c.steps| + 1], AC.Suspended);
    } else {
      var after := AC.Run(held.(index := |c.steps| + 2), w, t0, fuel);
      assert mid == after.(ran := [|c.steps| + 1] + after.ran);
      PrependTwo(|c.steps|, |c.steps| + 1, after.ran);
    }
  }

  /** Timed `performFor`: once the cursor has reached it at t0 and the chain
      holds on the acting step, every tick whose time is at most t0 + duration
      acts once and holds the chain exactly as it was; the first tick strictly
      later completes the step, untouched world, and carries on with whatever
      follows it. */
  lemma PerformForDurationActsUntilPast<W>(c: AC.Chain<W>, act: (real, W) -> W, duration: real,
                                           rest: seq<AC.Step<W>>, w: W, t0: real, w': W, t: real, fuel: nat)
    requires |c.steps| + 2 <= AC.MaxInt32
    ensures var b := Then(PerformForDuration(c, act, duration), rest).(index := |c.steps|);
            var held := b.(index := |c.steps| + 1, locals := c.locals[c.nextCell := t0 + duration]);
            var later := AC.Run(held, w', t, fuel + 1);
            && (duration >= 0.0 ==> AC.Run(b, w, t0, fuel + 2).chain == held)
            && (t <= t0 + duration ==> later == AC.RunResult(held, act(t, w'), [|c.steps| + 1], AC.Suspended))
            && (t > t0 + duration ==>
                  var after := AC.Run(held.(index := |c.steps| + 2), w', t, fuel);
                  later == after.(ran := [|c.steps| + 1] + after.ran))
  {
    PerformForDurationEntry(c, act, duration, rest, w, t0, fuel);
    var b := Then(PerformForDuration(c, act, duration), rest).(index := |c.steps|);
    var held := b.(index := |c.steps| + 1, locals := c.locals[c.nextCell := t0 + duration]);
    assert held.steps[|c.steps| + 1] == AC.PerformUntilPast(act, c.nextCell);
    assert AC.Read(held.locals, c.nextCell) == t0 + duration;
    RunOnPerformUntilPast(held, w', t, fuel);
  }
}
