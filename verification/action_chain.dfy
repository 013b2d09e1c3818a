/**
 The action chain of a FunctionScript `Script`: an ordered list of steps, a
 cursor, an enabled flag, an update channel and an end-of-list policy.

 Every step is a closure that returns `true` ("done, advance") or `false`
 ("re-run me next tick"). Here a step is a value of the `Step` datatype over
 an abstract world `W`; the user's actions and conditions are function values
 that may read the clock and the world, and only actions may change the world.
 Float locals captured by the builder's closures (a wait's deadline, a tween's
 start time, end time and previous value) are numbered cells that live in the
 chain; a cell never written reads as 0, as a C# `float` local starts at 0.
 */
module ActionChain {

  const MinInt32: int := -0x8000_0000
  const MaxInt32: int := 0x7fff_ffff

  /** The C# `int` used for the cursor and for `setActionIndex`. */
  type Int32 = x: int | MinInt32 <= x <= MaxInt32

  /** `index++` on a C# `int` in an unchecked context: wraps at the top. */
  function Inc32(i: Int32): (r: Int32)
    ensures i < MaxInt32 ==> r == i + 1
    ensures i == MaxInt32 ==> r == MinInt32
  {
    if i == MaxInt32 then MinInt32 else i + 1
  }

  /** The per-frame phase a chain is driven by. */
  datatype Channel = Update | FixedUpdate

  /** What the chain does once its cursor has passed the last step. */
  datatype OnFinished =
    | DestroyBehavior
    | DisableBehavior
    | DestroyGameObject
    | DeactivateGameObject
    | Loop

  /** The engine-side fate of the chain component and of its owner. */
  datatype Life = Alive | BehaviorDestroyed | OwnerDeactivated | OwnerDestroyed

  type Cell = nat
  type Locals = map<Cell, real>

  /** A captured float local; one never written holds 0. */
  function Read(l: Locals, k: Cell): real
  {
    if k in l then l[k] else 0.0
  }

  /** The three locals a tween's closures share. */
  datatype TweenCells = TweenCells(start: Cell, end: Cell, prev: Cell)
  {
    predicate Distinct() {
      start != end && start != prev && end != prev
    }
  }

  /** The shapes of step the builder appends. */
  datatype Step<!W> =
      /** `perform(action)`: act once, done. */
    | Perform(act: (real, W) -> W)
      /** `performUntil(action, condition)`: done if the condition holds, else act. */
    | PerformUntil(act: (real, W) -> W, cond: (real, W) -> bool)
      /** `waitUntil(condition)`: done exactly when the condition holds. */
    | WaitUntil(cond: (real, W) -> bool)
      /** `setActionIndex(value)`: move the cursor to `value`, done. */
    | SetIndex(target: Int32)
      /** `setChannelUpdate`/`setChannelFixedUpdate`: switch the phase, done. */
    | SetChannel(channel: Channel)
      /** The first step of `wait` and of timed `performFor`: deadline := now + duration. */
    | SetDeadline(deadline: Cell, duration: real)
      /** The second step of `wait`: done once now >= deadline. */
    | WaitForDeadline(deadline: Cell)
      /** The second step of timed `performFor`: done once now > deadline, else act. */
    | PerformUntilPast(act: (real, W) -> W, deadline: Cell)
      /** The first step of `tween`: record start and end time, previous value := 0. */
    | TweenStart(cells: TweenCells, duration: real)
      /** The second step of `tween`: until the end time, pass on the eased increment. */
    | TweenAdvance(cells: TweenCells, value: real, duration: real,
                   apply: (W, real) -> W, ease: (real, real, real) -> real)
      /** The third step of `tween`: pass on what is left to reach the eased end value. */
    | TweenSnap(cells: TweenCells, value: real,
                apply: (W, real) -> W, ease: (real, real, real) -> real)
  {
    /** Steps that report completion whatever the clock and the world, and leave the cursor alone. */
    predicate Immediate() {
      Perform? || SetChannel? || SetDeadline? || TweenStart? || TweenSnap?
    }

    /** The captured locals this step reads or writes. */
    function Cells(): set<Cell> {
      match this
      case SetDeadline(k, _) => {k}
      case WaitForDeadline(k) => {k}
      case PerformUntilPast(_, k) => {k}
      case TweenStart(cells, _) => {cells.start, cells.end, cells.prev}
      case TweenAdvance(cells, _, _, _, _) => {cells.start, cells.end, cells.prev}
      case TweenSnap(cells, _, _, _) => {cells.start, cells.end, cells.prev}
      case _ => {}
    }

    /** Every local this step uses is numbered below `n`. */
    predicate CellsBelow(n: Cell) {
      forall k :: k in Cells() ==> k < n
    }
  }

  datatype Chain<!W> = Chain(
    steps: seq<Step<W>>,
    index: Int32,
    enabled: bool,
    channel: Channel,
    policy: OnFinished,
    life: Life,
    locals: Locals,
    nextCell: Cell)

  /** Everything a step can touch besides the world, the cursor, the channel and the locals. */
  ghost predicate SameFrame<W>(c: Chain<W>, d: Chain<W>)
  {
    && d.steps == c.steps
    && d.enabled == c.enabled
    && d.policy == c.policy
    && d.life == c.life
    && d.nextCell == c.nextCell
  }

  /** The fraction of a tween's duration that has elapsed. C# divides a float by
      zero to an infinity; that case is reached only by a clock that runs
      backwards, and the model passes 0 there. */
  function Fraction(elapsed: real, duration: real): real
  {
    if duration == 0.0 then 0.0 else elapsed / duration
  }

  datatype StepResult<!W> = StepResult(done: bool, chain: Chain<W>, world: W)

  /** One invocation of the closure `s` at time `t`. */
  function Exec<W>(s: Step<W>, c: Chain<W>, w: W, t: real): (r: StepResult<W>)
    ensures SameFrame(c, r.chain)
    ensures s.SetIndex? ==> r.chain.index == s.target
    ensures !s.SetIndex? ==> r.chain.index == c.index
    ensures s.SetChannel? ==> r.chain.channel == s.channel
    ensures !s.SetChannel? ==> r.chain.channel == c.channel
    ensures s.Immediate() || s.SetIndex? ==> r.done
    ensures s.PerformUntil? ==>
              && (r.done <==> s.cond(t, w))
              && r.world == (if r.done then w else s.act(t, w))
    ensures s.Perform? ==> r.world == s.act(t, w)
    ensures s.WaitUntil? ==> (r.done <==> s.cond(t, w)) && r.world == w
    ensures s.SetIndex? || s.SetChannel? || s.SetDeadline? || s.WaitForDeadline? ==> r.world == w
    ensures s.WaitForDeadline? ==> (r.done <==> t >= Read(c.locals, s.deadline))
    ensures s.PerformUntilPast? ==>
              && (r.done <==> t > Read(c.locals, s.deadline))
              && r.world == (if r.done then w else s.act(t, w))
    ensures s.SetDeadline? ==>
              && Read(r.chain.locals, s.deadline) == t + s.duration
              && r.chain.locals == c.locals[s.deadline := t + s.duration]
    ensures !s.SetDeadline? && !s.TweenStart? && !s.TweenAdvance? ==> r.chain.locals == c.locals
    ensures s.TweenStart? ==>
              && r.world == w && Read(r.chain.locals, s.cells.prev) == 0.0
              && (s.cells.Distinct() ==>
                    Read(r.chain.locals, s.cells.start) == t && Read(r.chain.locals, s.cells.end) == t + s.duration)
              && (forall k :: k != s.cells.start && k != s.cells.end && k != s.cells.prev ==>
                    Read(r.chain.locals, k) == Read(c.locals, k))
    ensures s.TweenAdvance? ==>
              && (r.done <==> t >= Read(c.locals, s.cells.end))
              && (r.done ==> r.world == w && r.chain.locals == c.locals)
              && (!r.done ==>
                    var val := s.ease(0.0, s.value, Fraction(t - Read(c.locals, s.cells.start), s.duration));
                    && r.chain.locals == c.locals[s.cells.prev := val]
                    && Read(r.chain.locals, s.cells.prev) == val
                    && r.world == s.apply(w, val - Read(c.locals, s.cells.prev)))
    ensures s.TweenSnap? ==> r.world == s.apply(w, s.ease(0.0, s.value, 1.0) - Read(c.locals, s.cells.prev))
  {
    match s
    case Perform(act) => StepResult(true, c, act(t, w))
    case PerformUntil(act, cond) =>
      if cond(t, w) then StepResult(true, c, w) else StepResult(false, c, act(t, w))
    case WaitUntil(cond) => StepResult(cond(t, w), c, w)
    case SetIndex(v) => StepResult(true, c.(index := v), w)
    case SetChannel(ch) => StepResult(true, c.(channel := ch), w)
    case SetDeadline(k, d) => StepResult(true, c.(locals := c.locals[k := t + d]), w)
    case WaitForDeadline(k) => StepResult(t >= Read(c.locals, k), c, w)
    case PerformUntilPast(act, k) =>
      if t > Read(c.locals, k) then StepResult(true, c, w) else StepResult(false, c, act(t, w))
    case TweenStart(cells, d) =>
      StepResult(true, c.(locals := c.locals[cells.start := t][cells.end := t + d][cells.prev := 0.0]), w)
    case TweenAdvance(cells, v, d, apply, ease) =>
      if t >= Read(c.locals, cells.end) then StepResult(true, c, w)
      else
        var val := ease(0.0, v, Fraction(t - Read(c.locals, cells.start), d));
        StepResult(false, c.(locals := c.locals[cells.prev := val]), apply(w, val - Read(c.locals, cells.prev)))
    case TweenSnap(cells, v, apply, ease) =>
      StepResult(true, c, apply(w, ease(0.0, v, 1.0) - Read(c.locals, cells.prev)))
  }

  /** The fate of the component after the end-of-list policy. */
  function LifeAfter(p: OnFinished, l: Life): Life
  {
    match p
    case DestroyBehavior => BehaviorDestroyed
    case DeactivateGameObject => OwnerDeactivated
    case DestroyGameObject => OwnerDestroyed
    case _ => l
  }

  /** The `switch (onScriptFinished)` at the end of `run`. */
  function ApplyPolicy<W>(c: Chain<W>): (r: Chain<W>)
    ensures r.steps == c.steps && r.policy == c.policy && r.channel == c.channel
    ensures r.locals == c.locals && r.nextCell == c.nextCell
    ensures r.index == (if c.policy == Loop then 0 else c.index)
    ensures r.enabled == (c.enabled && c.policy != DisableBehavior)
    ensures r.life == LifeAfter(c.policy, c.life)
  {
    match c.policy
    case DestroyBehavior => c.(life := BehaviorDestroyed)
    case DisableBehavior => c.(enabled := false)
    case DeactivateGameObject => c.(life := OwnerDeactivated)
    case DestroyGameObject => c.(life := OwnerDestroyed)
    case Loop => c.(index := 0)
  }

  /** Why a tick ended. */
  datatype Halt =
    | Skipped    // not this chain's phase, or the component is disabled or gone
    | Suspended  // a step returned false; the cursor stays on it
    | Finished   // the cursor passed the last step and the policy was applied
    | Fault      // a negative cursor: the list indexer throws
    | Hung       // the step budget ran out (a jump back can make a tick endless)

  /** The chain and world after a tick, the positions of the steps invoked in order, and why it ended. */
  datatype RunResult<!W> = RunResult(chain: Chain<W>, world: W, ran: seq<int>, halt: Halt)

  /** `run()`: invoke steps from the cursor while they report done; apply the
      policy once the cursor is past the end. `fuel` bounds the number of step
      invocations, since `setActionIndex` can jump back forever within one tick. */
  function Run<W>(c: Chain<W>, w: W, t: real, fuel: nat): (r: RunResult<W>)
    decreases fuel
    ensures r.chain.steps == c.steps && r.chain.policy == c.policy && r.chain.nextCell == c.nextCell
    ensures r.halt in {Suspended, Finished, Fault, Hung}
    ensures |r.ran| <= fuel
    ensures |r.ran| > 0 ==> r.ran[0] == c.index
    ensures r.halt == Suspended ==>
              |r.ran| > 0 && r.chain.index == r.ran[|r.ran| - 1] && 0 <= r.chain.index < |c.steps|
    ensures r.halt == Finished ==>
              && (c.policy == Loop ==> r.chain.index == 0)
              && (c.policy != Loop ==> r.chain.index >= |c.steps|)
    ensures r.halt == Fault ==> r.chain.index < 0
    ensures r.halt == Hung ==> |r.ran| == fuel && 0 <= r.chain.index < |c.steps|
    ensures r.chain.life == (if r.halt == Finished then LifeAfter(c.policy, c.life) else c.life)
    ensures r.chain.enabled == (c.enabled && !(r.halt == Finished && c.policy == DisableBehavior))
  {
    if c.index >= |c.steps| then RunResult(ApplyPolicy(c), w, [], Finished)
    else if c.index < 0 then RunResult(c, w, [], Fault)
    else if fuel == 0 then RunResult(c, w, [], Hung)
    else
      var s := Exec(c.steps[c.index], c, w, t);
      if !s.done then RunResult(s.chain, s.world, [c.index], Suspended)
      else
        var r := Run(s.chain.(index := Inc32(s.chain.index)), s.world, t, fuel - 1);
        r.(ran := [c.index] + r.ran)
  }

  /** `Update`/`FixedUpdate`: the engine calls them only on an enabled, live
      component, and each runs the chain only when it is the chain's channel. */
  function Tick<W>(c: Chain<W>, w: W, t: real, phase: Channel, fuel: nat): (r: RunResult<W>)
    ensures c.channel != phase || !c.enabled || c.life != Alive ==> r == RunResult(c, w, [], Skipped)
    ensures r.halt == Skipped <==> c.channel != phase || !c.enabled || c.life != Alive
    ensures r.halt != Skipped ==> r == Run(c, w, t, fuel)
  {
    if c.life == Alive && c.enabled && c.channel == phase then Run(c, w, t, fuel)
    else RunResult(c, w, [], Skipped)
  }

  /** One engine frame phase delivered to a chain: the clock and which callback. */
  datatype Frame = Frame(time: real, phase: Channel)

  datatype State<!W> = State(chain: Chain<W>, world: W)

  /** A sequence of frame phases, earliest first, each a tick with the same step budget. */
  function Ticks<W>(c: Chain<W>, w: W, frames: seq<Frame>, fuel: nat): (r: State<W>)
    decreases |frames|
    ensures r.chain.steps == c.steps && r.chain.policy == c.policy
  {
    if frames == [] then State(c, w)
    else
      var r := Tick(c, w, frames[0].time, frames[0].phase, fuel);
      Ticks(r.chain, r.world, frames[1..], fuel)
  }
}
