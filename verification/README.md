# FunctionScript action chain in Dafny

A model of the scheduler at the heart of FunctionScript, a Unity library for
writing timelines such as "play this animation, wait, then do that" as one
fluent chain of calls.

A `Script` wraps one `GameActionChain` component. The chain holds:

- an ordered list of steps (`Func<bool>` closures);
- a cursor `index`;
- the component's `enabled` flag;
- a `channel` (Update or Fixed_Update);
- an `OnScriptFinished` policy.

Each engine frame, `Update` or `FixedUpdate` runs the chain if it is on that channel. A run invokes steps from the cursor for as long as they report done. It stops on the first step that reports not done. Once the cursor passes the end, it applies the policy: destroy the component, disable it, deactivate or destroy the owner, or loop back to step 0.

The `Script` builder appends steps. The extensions `wait` and `tween` are composed from those steps.

The modelling choices:

- **World.** The world the steps act on is a type parameter `W`.
- **Steps.** A step is a value of the `Step` datatype. It carries the user's action `(time, world) -> world` or condition `(time, world) -> bool` as a function value, and it is executed by the pure function `ActionChain.Exec`.
- **Captured locals.** The float locals captured by the builder's closures become numbered cells kept in the chain. These are the deadline of `wait` and of timed `performFor`, and the start time, end time and previous value of `tween`. A cell that was never written reads as 0, the same as a C# `float` local.
- **The cursor.** It is a C# `int`. `index++` wraps at 2^31 - 1 (`Inc32`). A negative cursor makes the list indexer throw; the model records that as the `Fault` outcome of the tick.
- **The tick budget.** A `setActionIndex` step can jump back, so one tick may never end. `Run` and `Tick` therefore take a budget (`fuel`) of step invocations, and they report `Hung` when it runs out.
- **The clock and the phase.** `Time.time` is a parameter of every tick. So is the phase that calls it.

Modules:

- `ActionChain` (action_chain.dfy): the data model, `Exec`, `Run`, `Tick` and `Ticks`.
- `ChainProperties` (chain_properties.dfy): properties of ticks, such as order, drain, suspension, the policies and `setActionIndex`.
- `Script` (script.dfy): the builder, and `pause`/`resume`.
- `ScriptExtensionsCore` (extensions.dfy): `wait` and `tween`, including the delta-accumulation theorem.
- `Scenarios` (scenarios.dfy): two concrete timelines.

Three facts about `run()` (FunctionScript.cs:76-101) that shape the model:

- **Many steps per tick.** The `for` loop at FunctionScript.cs:78-81 invokes every consecutive step that reports done in the same tick, not one step per tick (`DrainAppliesPolicy`).
- **Where the cursor ends.** Nothing sets the cursor to the list length: it stays where the `for` loop stopped. After `setActionIndex(v)` with `v + 1` at or past `Count`, the cursor stays at `v + 1`, beyond the list, under every policy but Loop (`SetIndexContinuesAfterTarget`).
- **Where `setActionIndex(v)` resumes.** It resumes at step `v + 1`, not `v`, because the loop's `index++` at FunctionScript.cs:78 runs after the step.

## Model

| member | source | states |
|---|---|---|
| ActionChain.Inc32 | FunctionScript.cs:78 | the loop's `index++` on a C# int adds one, and wraps to the least int at the top |
| ActionChain.Exec | FunctionScript.cs:186-329 | one step invocation keeps the list, flag, policy and component state. Only a setActionIndex step moves the cursor, and only a channel step changes the channel. Perform, channel, deadline and tween setup/snap steps always report done. A perform step applies its action. performUntil reports done exactly when its condition holds, and acts only when it does not. waitUntil reports its condition and leaves the world alone. Index, channel, deadline and wait steps leave the world alone. The deadline step sets exactly its local to now + duration. The wait step is done iff now >= deadline. The timed performFor step is done iff now > deadline, and acts exactly when it is not done. Tween setup applies nothing, zeroes the previous value, records start = now and end = now + duration, and touches no other local. The tween's performUntil step is done iff now >= end, and then applies nothing. Otherwise it applies the eased value of the elapsed fraction minus the previous value, and writes that eased value to the previous-value local and to no other. The snap applies ease(0, value, 1) minus the previous value. No other step writes a local |
| ActionChain.ApplyPolicy | FunctionScript.cs:83-100 | the end-of-list switch. Destroy_Behavior destroys the component. Disable_Behavior clears `enabled` and leaves the cursor. Deactivate_GameObject and Destroy_GameObject deactivate or destroy the owner. Loop sets the cursor to 0. Steps, channel and locals are untouched |
| ActionChain.Run | FunctionScript.cs:76-101 | a tick invokes at most `fuel` steps, starting at the cursor. On suspension the cursor is on the last step invoked. Finishing applies the policy: under Loop the cursor is 0, otherwise it is at or past the end. A fault means a negative cursor. The steps and the policy never change |
| ActionChain.Tick | FunctionScript.cs:60-74 | the chain runs iff it is on the calling phase, enabled and alive. Otherwise it is returned unchanged with no step invoked |
| ActionChain.Ticks | FunctionScript.cs:60-101 | any sequence of frames leaves the step list and the policy unchanged |
| ChainProperties.RunInvokesListedSteps | FunctionScript.cs:78-81 | every step a tick invokes is a position in the list, even after a setActionIndex jump: the cursor guards come before every invocation |
| ChainProperties.RunOnPerformUntilPast | FunctionScript.cs:190 | a tick that reaches a timed performFor's acting step at a time <= its deadline acts once and holds the chain there. Past the deadline it is exactly the tick from the next step, with the world untouched |
| ChainProperties.RunOnWaitForDeadline | FunctionScript.cs:443 | a tick that reaches a wait's waiting step before its deadline holds chain and world there. At or after the deadline it is exactly the tick from the next step |
| ChainProperties.ForwardRunIsConsecutive | FunctionScript.cs:78-81 | with no setActionIndex step, the k-th step a tick invokes is the one at cursor + k: consecutive steps from the cursor, never an earlier one |
| ChainProperties.ForwardRunCursor | FunctionScript.cs:78-81 | with no setActionIndex step, a suspended tick leaves the cursor on the step that returned false. A finished tick has invoked every step from the cursor to the end. The cursor stays within 0..length, so the tick never faults |
| ChainProperties.ForwardRunTerminates | FunctionScript.cs:78-81 | with no setActionIndex step, one invocation per remaining step is enough for a tick to end by suspension or by finishing |
| ChainProperties.DrainAppliesPolicy | FunctionScript.cs:78-100 | if every remaining step is an always-done step, one tick invokes all of them in order and applies the policy. Under Loop the cursor returns to 0 and nothing more runs in that tick. Disable_Behavior clears `enabled`, and the destroy and deactivate policies end the component's life |
| ChainProperties.IdleStaysIdle | FunctionScript.cs:60-74 | a disabled chain, or one whose component or owner is gone, is untouched by any sequence of frames |
| ChainProperties.FinishedChainStaysIdle | FunctionScript.cs:83-96 | after a tick that finishes under any policy but Loop, no later frame invokes a step or changes the chain or the world |
| ChainProperties.LoopRestartsFromFirstStep | FunctionScript.cs:97-99 | under Loop a finishing tick leaves the chain live with the cursor on 0, and the next tick on its channel begins with step 0 |
| ChainProperties.BlockedWaitHoldsChain | FunctionScript.cs:78-81 | while a waitUntil condition stays false, repeated frames change neither the chain nor the world, and each invokes only that step |
| ChainProperties.SetIndexContinuesAfterTarget | FunctionScript.cs:276-279 | a setActionIndex(v) step makes the rest of the tick run from v+1. If v+1 is past the end, the policy applies at once. If v < -1, or v is the largest int (so `index++` wraps), the tick faults |
| ChainProperties.RunKeepsChannel | FunctionScript.cs:76-81 | with no setActionIndex step and no channel step from the cursor on, a tick leaves the channel unchanged |
| ChainProperties.ChannelStepTakesEffectNextTick | FunctionScript.cs:254-267 | a channel step does not stop the current tick: the remaining steps still run. With no later channel step and no cursor jump, the chain then has the new channel, and a tick of the other phase skips it |
| ChainProperties.LoopDrainRestores | FunctionScript.cs:97-99 | under Loop, a tick that drains a list of perform steps gives back the chain it started from with the cursor on 0 |
| ChainProperties.LoopingDrainRepeats | FunctionScript.cs:78-99 | a looping chain of perform steps, with its cursor on 0, is the same chain after any sequence of frames. Every tick on its channel, run from the world the earlier frames left, invokes all its steps in order |
| Script.NewChain | FunctionScript.cs:109-118 | a new script is enabled, empty, on Fixed_Update, with its cursor on 0 and the given policy. It has no locals yet, so every local its steps use has been allocated |
| Script.Add | FunctionScript.cs:248-252 | appends exactly one step and changes nothing else. Appending a step whose locals are already allocated keeps every local the script uses allocated |
| Script.Perform | FunctionScript.cs:208-217 | appends exactly one perform step and changes nothing else |
| Script.PerformUntil | FunctionScript.cs:219-231 | appends exactly one performUntil step and changes nothing else |
| Script.WaitUntil | FunctionScript.cs:233-236 | appends exactly one waitUntil step and changes nothing else |
| Script.PerformIf | FunctionScript.cs:156-169 | appends exactly one perform step and changes nothing else |
| Script.PerformIfTakesOneBranch | FunctionScript.cs:156-169 | the appended step reads the condition when it runs, applies the action if it holds and the else-action otherwise, and always completes |
| Script.PerformIfValue | FunctionScript.cs:171-184 | with a condition fixed at build time, appends one perform step of the chosen branch and changes nothing else |
| Script.PerformForTimes | FunctionScript.cs:193-201 | appends exactly max(times, 0) perform steps of the action and changes nothing else |
| Script.PerformForDuration | FunctionScript.cs:186-191 | appends a deadline step and an act-until-past step over one new local. When the script's locals were all allocated, they still are, and no earlier step uses the new local |
| Script.PerformForDurationRecordsDeadline | FunctionScript.cs:188-189 | whatever steps follow it: the first step of a timed performFor writes t0 + duration to its local, and the tick is exactly the tick from the acting step with the world untouched |
| Script.PerformForDurationEntry | FunctionScript.cs:186-191 | whatever steps follow it, on the tick the cursor reaches a timed performFor at t0 the deadline t0 + duration is recorded. If duration >= 0, the action runs once and the chain suspends on the acting step. Otherwise the tick is exactly the tick from the step after it, with the world untouched |
| Script.PerformForDurationActsUntilPast | FunctionScript.cs:186-191 | whatever steps follow it: once the chain holds on the acting step with deadline t0 + duration, a tick at a time <= t0 + duration acts once and leaves the chain exactly as it was. A strictly later tick is exactly the tick from the next step with the world untouched |
| Script.SetChannelUpdate | FunctionScript.cs:254-257 | appends one step that switches the chain to Update |
| Script.SetChannelFixedUpdate | FunctionScript.cs:259-262 | appends one step that switches the chain to Fixed_Update |
| Script.SetActionIndex | FunctionScript.cs:276-279 | appends one step that sets the cursor to the given value |
| Script.SetOnFinished | FunctionScript.cs:120-123 | replaces the policy and nothing else |
| Script.Loop | FunctionScript.cs:269-274 | sets the policy to Loop and nothing else, and appends no step |
| Script.Pause | FunctionScript.cs:125-128 | clears `enabled`, and leaves the cursor, steps, policy and channel unchanged |
| Script.Resume | FunctionScript.cs:130-133 | sets `enabled`, and leaves the cursor, steps, policy and channel unchanged |
| Script.PauseThenResumeIsTransparent | FunctionScript.cs:125-133 | pausing an enabled chain, ticking it any number of times and resuming it gives back the same chain and world, so it continues at the step it was suspended on |
| Script.ResumedFinishedChainDisablesAgain | FunctionScript.cs:86-88 | a chain that disabled itself at the end and is resumed invokes no step on its next tick and disables itself again |
| Script.PerformUntilChecksFirst | FunctionScript.cs:219-231 | whatever steps follow it: when the cursor reaches a performUntil step whose condition holds, the step completes without acting, and the tick is exactly the tick from the next step with this step's position prepended. Otherwise it acts once and holds the cursor, and the rest of the chain is unchanged |
| ScriptExtensionsCore.Wait | FunctionScript.cs:438-444 | appends a deadline step and a wait-for-deadline step over one new local. When the script's locals were all allocated, they still are, and no earlier step uses the new local |
| ScriptExtensionsCore.WaitRecordsDeadline | FunctionScript.cs:440-442 | whatever steps follow it: the first step of a wait writes t0 + duration to its local, and the tick is exactly the tick from the waiting step with the world untouched |
| ScriptExtensionsCore.WaitEntry | FunctionScript.cs:438-444 | whatever steps follow it, on the tick the cursor reaches a wait at t0 the deadline t0 + duration is recorded. If duration > 0, the chain suspends on the waiting step with the world untouched. Otherwise the tick is exactly the tick from the step after the wait |
| ScriptExtensionsCore.WaitHoldsUntilDeadline | FunctionScript.cs:438-444 | whatever steps follow it: once the chain holds on the waiting step with deadline t0 + duration, a tick earlier than t0 + duration leaves chain and world exactly as they were. A tick at or after it is exactly the tick from the step after the wait |
| ScriptExtensionsCore.Tween | FunctionScript.cs:305-329 | appends exactly three steps (setup, performUntil, final snap) over three new, distinct locals. When the script's locals were all allocated, they still are, and no earlier step uses any of the three |
| ScriptExtensionsCore.TweenStartKeepsProgress | FunctionScript.cs:313-317 | the setup step always completes and applies nothing. It records start = now and end = now + duration and zeroes the previous value, so the accounting holds with nothing yet applied |
| ScriptExtensionsCore.TweenAdvanceKeepsProgress | FunctionScript.cs:318-325 | the performUntil step completes iff now >= end time, and then applies nothing. Before it, it applies ease(0, value, elapsed fraction) minus the previous value and records that eased value as the new previous value. Either way the increments applied still sum to the previous value |
| ScriptExtensionsCore.TweenSnapKeepsProgress | FunctionScript.cs:326-328 | the final step applies ease(0, value, 1) minus the previous value and completes, so the increments applied sum to ease(0, value, 1) |
| ScriptExtensionsCore.TweenExecKeepsProgress | FunctionScript.cs:313-328 | whichever of the three steps is under the cursor, invoking it keeps the accounting. Nothing is applied before setup. While running, the increments applied sum to the previous eased value; after a performUntil invocation that holds the chain, they sum to the eased value of this tick's elapsed fraction. After the snap they sum to ease(0, value, 1) |
| ScriptExtensionsCore.TweenDoneRunKeepsProgress | FunctionScript.cs:78-100 | a tick of a tween whose three steps are done finishes at once, applies nothing, and keeps the accounting |
| ScriptExtensionsCore.TweenSnapRunKeepsProgress | FunctionScript.cs:326-328 | a tick that starts on the final step keeps the tween's accounting |
| ScriptExtensionsCore.TweenAdvanceRunKeepsProgress | FunctionScript.cs:318-328 | a tick that starts on the performUntil step keeps the tween's accounting, whether it suspends there or runs on through the final step |
| ScriptExtensionsCore.TweenStartRunKeepsProgress | FunctionScript.cs:313-328 | a tick that starts on the setup step keeps the tween's accounting |
| ScriptExtensionsCore.TweenRunKeepsProgress | FunctionScript.cs:313-328 | one tick at any time and with any budget keeps the tween's accounting |
| ScriptExtensionsCore.TweenTicksKeepProgress | FunctionScript.cs:313-328 | any sequence of frames keeps the tween's accounting |
| ScriptExtensionsCore.TweenIncrementsSumToEasedEnd | FunctionScript.cs:305-329 | for a script that is one tween, whatever the tick times and the easing curve, the increments passed to tweenFunction sum to exactly ease(0, value, 1) once the tween is done |
| ScriptExtensionsCore.TweenFinishesAtEndTime | FunctionScript.cs:318-328 | a tick of a running tween finishes it iff its time is at or after the end time. Then it invokes only the performUntil and snap steps, and the increments sum to ease(0, value, 1). Earlier it suspends on the performUntil step, having invoked only it |
| Scenarios.PerformUntilCounterObserves1233 | FunctionScript.cs:219-231 | performUntil(counter++, counter >= 3) from 0 observes 1, 2, 3, 3 over four ticks, and the fourth tick ends the script |
| Scenarios.SequentialWaitTimeline | FunctionScript.cs:438-444 | perform(x=1), wait(2), perform(x=2), ticked at 0, 1.9 and 2.0, gives x = 1, 1, 2, and the last tick destroys the component |

## Left out

- Unity object plumbing. This covers the `MonoBehaviour` lifecycle, `AddComponent`/`GetOrAdd` (including `newGameActionChain = false`), the named-script constructor, and its static `Scripts` parent object (FunctionScript.cs:135-154). It also covers `deactivateActionChain`, `destroyActionChain` and `destroy` (FunctionScript.cs:238-246, 281-284). The component's fate is only the `Life` value. `Destroy` is modelled as taking effect at once; in the engine it is deferred to the end of the frame.
- Re-activating a deactivated owner from outside the chain. Nothing inside the core does it.
- `async` (FunctionScript.cs:203-206) and the cross-chain `pause(that)`/`resume(that)` extensions. This model has one chain. When they start or toggle a different chain, to this chain they are a perform step with an external effect. That is not so when they act on this chain itself, which the next line covers.
- Steps that act on their own chain. A step is a function of the clock and the world only. So no step can pause or resume its own chain, change its policy or channel other than through `setChannel`, or append steps to it while it runs. In the source a closure can do all of these: `pause()` clears this component's `enabled` (FunctionScript.cs:125-128) while `run()` keeps draining in the same tick (78-81), and `animateOpacity` calls `script.async` from inside a step (623-630), which appends to `actions` that the `for` loop re-reads. `Run`'s "steps and policy never change", `Exec`'s frame condition and the contract of `Ticks` hold only because of this restriction.
- The 31 easing curves and their derivatives. They are floating-point arithmetic with `Sin`, `Pow`, `Sqrt` and `Asin`. The curve is an arbitrary function parameter of `tween`.
- Composite tweens (`rotate`, `animatePosition`, `translate`, `expand`, `shrink`, `color`, `animateOpacity`), and the `setOpacity`, `setSprite`, collider, `remove` and `setActive` helpers. These are Vector3, Color and Transform manipulation inside engine types.
- Input and UI waits (`waitUntilClicked`, `waitUntilLeftClick`, the distance waits), and `log`. They are `waitUntil` or `perform` over external I/O.
- Exceptions thrown by user actions or conditions. Steps are total functions here. The only fault modelled is the list indexer's, on a negative cursor.
- A cursor wrapping past the top of `int` with a list of more than 2^31 - 1 steps. The forward-run lemmas assume at most that many steps, which is what a `List` can hold.
- ActionChain.Exec: computes over real numbers, not 32-bit floats. So the tween increments sum exactly, where float rounding would not. When a tween's duration is 0 and the clock has run backwards, C# divides by zero to an infinity; the model passes the fraction 0 to the curve instead.
- ActionChain.Run: bounds the number of step invocations in one tick by `fuel`. A tick that `setActionIndex` makes endless is reported as `Hung`, not modelled as a frame that never ends.
- ScriptExtensionsCore.TweenIncrementsSumToEasedEnd: stated for a script that consists of one tween under a policy other than Loop. Under Loop every cycle runs the setup again and adds another ease(0, value, 1). Other steps in the same script would also have to leave the tween's locals alone.
- Conditions with side effects. A condition is a query `(time, world) -> bool` and cannot change the world. `waitUntil`, `performUntil` and `add` accept any `Func<bool>` (FunctionScript.cs:219-236, 248-252), and in C# such a delegate may have side effects. Exec's "waitUntil leaves the world alone" and BlockedWaitHoldsChain's "neither the chain nor the world changes" rely on this restriction.
- ScriptExtensionsCore.TweenFinishesAtEndTime: stated, like TweenIncrementsSumToEasedEnd, for a script that consists of one tween: the tween accounting it rests on is an invariant of that script only. When steps follow the tween, reaching the end time moves on to them instead of finishing the script.
