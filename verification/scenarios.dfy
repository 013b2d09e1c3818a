/**
 Concrete scripts ticked frame by frame: the check-before-act order of
 `performUntil`, and a perform / wait / perform timeline.
 */
module Scenarios {
  import AC = ActionChain
  import opened Script
  import opened ScriptExtensionsCore

  function Increment(t: real, n: int): int { n + 1 }

  function ReachedThree(t: real, n: int): bool { n >= 3 }

  /** `performUntil(counter++, counter >= 3)` on a counter starting at 0: four
      fixed-rate ticks, at any times, observe 1, 2, 3, 3; the action is not run
      on the tick where the condition first holds, and that tick ends the script. */
  lemma PerformUntilCounterObserves1233(t1: real, t2: real, t3: real, t4: real)
    ensures var c := PerformUntil(NewChain<int>(AC.DestroyBehavior), Increment, ReachedThree);
            var r1 := AC.Tick(c, 0, t1, AC.FixedUpdate, 2);
            var r2 := AC.Tick(r1.chain, r1.world, t2, AC.FixedUpdate, 2);
            var r3 := AC.Tick(r2.chain, r2.world, t3, AC.FixedUpdate, 2);
            var r4 := AC.Tick(r3.chain, r3.world, t4, AC.FixedUpdate, 2);
            && [r1.world, r2.world, r3.world, r4.world] == [1, 2, 3, 3]
            && r1.halt == AC.Suspended && r2.halt == AC.Suspended && r3.halt == AC.Suspended
            && r4.halt == AC.Finished && r4.chain.life == AC.BehaviorDestroyed
  {
  }

  function SetOne(t: real, x: int): int { 1 }

  function SetTwo(t: real, x: int): int { 2 }

  /** `perform(x = 1).wait(2).perform(x = 2)`, ticked at 0, 1.9 and 2.0: x is 1
      after the first tick and the chain waits; still 1 at 1.9; 2 at 2.0, when
      the script finishes and its component is destroyed. */
  lemma SequentialWaitTimeline(x0: int)
    ensures var c := Perform(Wait(Perform(NewChain<int>(AC.DestroyBehavior), SetOne), 2.0), SetTwo);
            var r1 := AC.Tick(c, x0, 0.0, AC.FixedUpdate, 4);
            var r2 := AC.Tick(r1.chain, r1.world, 1.9, AC.FixedUpdate, 4);
            var r3 := AC.Tick(r2.chain, r2.world, 2.0, AC.FixedUpdate, 4);
            && r1.world == 1 && r1.halt == AC.Suspended && r1.chain.index == 2
            && r2.world == 1 && r2.halt == AC.Suspended && r2.chain.index == 2
            && r3.world == 2 && r3.halt == AC.Finished && r3.chain.life == AC.BehaviorDestroyed
  {
  }
}
