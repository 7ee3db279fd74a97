/**
 The HAL handle lock: a test and a set in two separate steps, with nothing atomic about them.
 It excludes under a schedule exactly when sets and unlocks alternate in it, with no unlock between
 them by another context; nesting contexts, as interrupt handlers nest, ensures that.
 */
module HalLock {

  datatype LockState = UNLOCKED | LOCKED

  datatype Status = OK | BUSY

  /** Where a context stands: outside, between the test and the set, or inside the locked section. */
  datatype Pc = Idle | Tested | Critical

  /** The handle's Lock field and the contexts that are running, innermost last. */
  datatype World = World(lock: LockState, stack: seq<Pc>) {
    predicate Running(i: nat) {
      i < |stack|
    }
  }

  /**
   `Test` and `Set` are the two halves of __HAL_LOCK, `Unlock` is __HAL_UNLOCK by the context that
   locked, and `Release` is __HAL_UNLOCK by one that did not.
   */
  datatype Step = Test | Set | Unlock | Release | Preempt | Return

  /** Context i may take the step; it must have unlocked before it returns. */
  predicate CanStep(w: World, i: nat, step: Step) {
    && w.Running(i)
    && match step
       case Test => w.stack[i] == Idle
       case Set => w.stack[i] == Tested
       case Unlock => w.stack[i] == Critical
       case Release => w.stack[i] == Idle
       case Preempt => true
       case Return => w.stack[i] == Idle && |w.stack| > 1
  }

  /** A test that finds the lock taken returns HAL_BUSY, leaving the context outside. */
  function StepBy(w: World, i: nat, step: Step): (w': World)
    requires CanStep(w, i, step)
  {
    match step
    case Test => if w.lock == LOCKED then w else w.(stack := w.stack[i := Tested])
    case Set => World(LOCKED, w.stack[i := Critical])
    case Unlock => World(UNLOCKED, w.stack[i := Idle])
    case Release => w.(lock := UNLOCKED)
    case Preempt => w.(stack := w.stack + [Idle])
    case Return => w.(stack := w.stack[..i] + w.stack[i + 1..])
  }

  /** Which context takes which step. */
  datatype Action = Action(who: nat, step: Step)

  predicate CanRun(w: World, actions: seq<Action>)
    decreases |actions|
  {
    actions == [] ||
    (CanStep(w, actions[0].who, actions[0].step) && CanRun(StepBy(w, actions[0].who, actions[0].step), actions[1..]))
  }

  function RunAll(w: World, actions: seq<Action>): World
    requires CanRun(w, actions)
    decreases |actions|
  {
    if actions == [] then w else RunAll(StepBy(w, actions[0].who, actions[0].step), actions[1..])
  }

  /** Interrupt nesting: only the innermost context ever runs. */
  predicate Nested(w: World, actions: seq<Action>)
    requires CanRun(w, actions)
    decreases |actions|
  {
    actions == [] ||
    (actions[0].who == |w.stack| - 1 && Nested(StepBy(w, actions[0].who, actions[0].step), actions[1..]))
  }

  /** Contexts unlock only what they locked. */
  predicate OwnersUnlock(actions: seq<Action>) {
    forall i | 0 <= i < |actions| :: actions[i].step != Release
  }

  /**
   A condition on the order of the actions alone: sets and unlocks alternate, starting with a set unless
   the lock is held, and no context unlocks what another holds.
   */
  predicate Alternates(held: bool, actions: seq<Action>)
    decreases |actions|
  {
    actions == [] ||
      match actions[0].step
      case Set => !held && Alternates(true, actions[1..])
      case Release => !held && Alternates(held, actions[1..])
      case Unlock => held && Alternates(false, actions[1..])
      case _ => Alternates(held, actions[1..])
  }

  /** No run goes below its first d contexts. */
  predicate Above(w: World, d: nat, actions: seq<Action>)
    requires CanRun(w, actions)
    decreases |actions|
  {
    actions == [] ||
    (|w.stack| > d && Above(StepBy(w, actions[0].who, actions[0].step), d, actions[1..]))
  }

  ghost predicate Exclusive(w: World) {
    && (forall i, j | 0 <= i < |w.stack| && 0 <= j < |w.stack| ::
          w.stack[i] == Critical && w.stack[j] == Critical ==> i == j)
    && (w.lock == LOCKED <==> Critical in w.stack)
  }

  /** A context inside the section has only idle contexts above it. */
  ghost predicate Inv(w: World) {
    && w.stack != []
    && (w.lock == LOCKED <==> Critical in w.stack)
    && (forall i, j | 0 <= i < j < |w.stack| :: w.stack[i] == Critical ==> w.stack[j] == Idle)
  }

  lemma InvExclusive(w: World)
    requires Inv(w)
    ensures Exclusive(w)
  {
  }

  /** The test cannot go stale: when a context is about to set the lock, it is still free. */
  lemma {:induction false} TestStillHolds(w: World)
    requires Inv(w) && w.stack[|w.stack| - 1] == Tested
    ensures w.lock == UNLOCKED && Critical !in w.stack
  {
    assert forall i | 0 <= i < |w.stack| :: w.stack[i] != Critical;
  }

  lemma NestedStep(w: World, step: Step)
    requires Inv(w) && CanStep(w, |w.stack| - 1, step) && step != Release
    ensures Inv(StepBy(w, |w.stack| - 1, step))
  {
    var top := |w.stack| - 1;
    var w' := StepBy(w, top, step);
    match step
    case Test =>
      if w.lock == UNLOCKED {
        assert forall i | 0 <= i < |w.stack| :: w.stack[i] != Critical;
      }
    case Set =>
      TestStillHolds(w);
      assert w'.stack[top] == Critical;
      assert forall i | 0 <= i < |w.stack| :: w.stack[i] != Critical;
    case Unlock =>
      assert forall i | 0 <= i < top :: w.stack[i] != Critical;
    case Preempt =>
      assert forall i | 0 <= i <= top :: w'.stack[i] == w.stack[i];
    case Return =>
      assert w'.stack == w.stack[..top];
      if Critical in w.stack {
        var i :| 0 <= i < |w.stack| && w.stack[i] == Critical;
        assert w'.stack[i] == Critical;
      }
  }

  lemma {:induction false} NestedKeepsInv(w: World, actions: seq<Action>)
    requires Inv(w) && CanRun(w, actions) && Nested(w, actions) && OwnersUnlock(actions)
    ensures Inv(RunAll(w, actions)) && Alternates(w.lock == LOCKED, actions)
    decreases |actions|
  {
    if actions != [] {
      assert OwnersUnlock(actions[1..]);
      if actions[0].step == Set {
        TestStillHolds(w);
      }
      NestedStep(w, actions[0].step);
      NestedKeepsInv(StepBy(w, actions[0].who, actions[0].step), actions[1..]);
    }
  }

  // ----- which schedules exclude -----

  /** Exclusive at every moment of the run. */
  ghost predicate Throughout(w: World, actions: seq<Action>)
    requires CanRun(w, actions)
    decreases |actions|
  {
    && Exclusive(w)
    && (actions != [] ==> Throughout(StepBy(w, actions[0].who, actions[0].step), actions[1..]))
  }

  /** One step of any context keeps exclusion exactly when it does not overrule a lock that is taken. */
  lemma {:induction false} ExclusiveStep(w: World, i: nat, step: Step)
    requires Exclusive(w) && CanStep(w, i, step)
    ensures Exclusive(StepBy(w, i, step)) <==> (step == Set || step == Release ==> w.lock == UNLOCKED)
  {
    var w' := StepBy(w, i, step);
    match step
    case Test =>
      assert forall j | 0 <= j < |w.stack| :: w'.stack[j] == Critical <==> w.stack[j] == Critical;
      SameCritical(w, w');
    case Set =>
      assert w'.stack[i] == Critical;
      if w.lock == LOCKED {
        var j :| 0 <= j < |w.stack| && w.stack[j] == Critical;
        assert w'.stack[j] == Critical;
      }
    case Unlock =>
      assert forall j | 0 <= j < |w.stack| :: w'.stack[j] != Critical;
    case Release =>
    case Preempt =>
      assert forall j | 0 <= j < |w.stack| :: w'.stack[j] == w.stack[j];
      if Critical in w.stack {
        var j :| 0 <= j < |w.stack| && w.stack[j] == Critical;
        assert w'.stack[j] == Critical;
      }
    case Return =>
      ReturnKeeps(w, i);
  }

  lemma SameCritical(w: World, w': World)
    requires |w.stack| == |w'.stack|
    requires forall j | 0 <= j < |w.stack| :: w'.stack[j] == Critical <==> w.stack[j] == Critical
    ensures Critical in w.stack <==> Critical in w'.stack
  {
    if Critical in w.stack {
      var j :| 0 <= j < |w.stack| && w.stack[j] == Critical;
      assert w'.stack[j] == Critical;
    }
  }

  /** A context that returns is outside its section. */
  lemma ReturnKeeps(w: World, i: nat)
    requires Exclusive(w) && CanStep(w, i, Return)
    ensures Exclusive(StepBy(w, i, Return))
  {
    var w' := StepBy(w, i, Return);
    assert forall j | 0 <= j < |w'.stack| :: w'.stack[j] == w.stack[if j < i then j else j + 1];
    if Critical in w.stack {
      var j :| 0 <= j < |w.stack| && w.stack[j] == Critical;
      assert w'.stack[if j < i then j else j - 1] == Critical;
    }
  }

  /**
   Under any schedule whatever, nested or not, exclusion holds at every moment exactly when the schedule's
   sets and unlocks alternate and no foreign unlock falls between a set and its unlock.
   */
  lemma {:induction false} ExclusionExact(w: World, actions: seq<Action>)
    requires Exclusive(w) && CanRun(w, actions)
    ensures Throughout(w, actions) <==> Alternates(w.lock == LOCKED, actions)
    decreases |actions|
  {
    if actions != [] {
      var w' := StepBy(w, actions[0].who, actions[0].step);
      ExclusiveStep(w, actions[0].who, actions[0].step);
      if Exclusive(w') {
        ExclusionExact(w', actions[1..]);
      }
    }
  }

  /**
   Start with one idle context and the lock free, and let contexts unlock only what they locked.
   However deep and however often they are interrupted, at every moment at most one is in its locked
   section, and the lock is taken exactly when one is.
   */
  lemma {:induction false} MutualExclusion(actions: seq<Action>)
    requires CanRun(World(UNLOCKED, [Idle]), actions) && Nested(World(UNLOCKED, [Idle]), actions)
    requires OwnersUnlock(actions)
    ensures Throughout(World(UNLOCKED, [Idle]), actions)
    ensures Exclusive(RunAll(World(UNLOCKED, [Idle]), actions))
  {
    NestedKeepsInv(World(UNLOCKED, [Idle]), actions);
    InvExclusive(World(UNLOCKED, [Idle]));
    ExclusionExact(World(UNLOCKED, [Idle]), actions);
    InvExclusive(RunAll(World(UNLOCKED, [Idle]), actions));
  }

  /**
   A handler that unlocks a handle it did not lock, and then takes the lock itself, breaks exclusion
   exactly when the context it interrupted was inside.
   */
  lemma {:induction false} ForeignUnlockExact(w: World)
    requires Inv(w) && w.stack[|w.stack| - 1] == Idle
    ensures var top := |w.stack| - 1;
            var actions := [Action(top, Release), Action(top, Test), Action(top, Set)];
            && CanRun(w, actions) && Nested(w, actions)
            && (Exclusive(RunAll(w, actions)) <==> Critical !in w.stack)
  {
    var top := |w.stack| - 1;
    var a, b, c := Action(top, Release), Action(top, Test), Action(top, Set);
    assert [a, b, c][1..] == [b, c] && [a, b, c][1..][1..] == [c] && [a, b, c][1..][1..][1..] == [];
    var w1 := w.(lock := UNLOCKED);
    var w2 := World(UNLOCKED, w.stack[top := Tested]);
    var w3 := World(LOCKED, w2.stack[top := Critical]);
    assert StepBy(w, top, Release) == w1 && StepBy(w1, top, Test) == w2 && StepBy(w2, top, Set) == w3;
    assert [c][1..] == [] && CanRun(w3, []) && Nested(w3, []) && RunAll(w3, []) == w3;
    assert CanRun(w2, [c]) && Nested(w2, [c]) && RunAll(w2, [c]) == w3;
    assert CanRun(w1, [b, c]) && Nested(w1, [b, c]) && RunAll(w1, [b, c]) == w3;
    assert w3.stack[top] == Critical;
    if Critical in w.stack {
      var i :| 0 <= i < |w.stack| && w.stack[i] == Critical;
      assert w3.stack[i] == Critical;
    }
  }

  lemma {:induction false} LowerContextsWait(w: World, d: nat, actions: seq<Action>)
    requires w.stack != [] && d <= |w.stack|
    requires CanRun(w, actions) && Nested(w, actions) && Above(w, d, actions)
    ensures d <= |RunAll(w, actions).stack| && RunAll(w, actions).stack[..d] == w.stack[..d]
    decreases |actions|
  {
    if actions != [] {
      var w' := StepBy(w, actions[0].who, actions[0].step);
      assert w'.stack[..d] == w.stack[..d];
      LowerContextsWait(w', d, actions[1..]);
    }
  }

  /**
   Why two separate steps are enough: whatever runs on top of a context until it is back in control,
   the lock and every waiting context are then exactly as it left them.
   */
  lemma {:induction false} PreemptionIsInvisible(w: World, actions: seq<Action>)
    requires Inv(w) && CanRun(w, actions) && Nested(w, actions) && OwnersUnlock(actions)
    requires actions != [] && actions[0].step == Preempt
    requires Above(StepBy(w, actions[0].who, Preempt), |w.stack|, actions[1..])
    requires |RunAll(w, actions).stack| == |w.stack|
    ensures RunAll(w, actions) == w
  {
    var w' := StepBy(w, actions[0].who, Preempt);
    LowerContextsWait(w', |w.stack|, actions[1..]);
    assert w'.stack[..|w.stack|] == w.stack;
    var e := RunAll(w, actions);
    assert e.stack == e.stack[..|w.stack|];
    NestedKeepsInv(w, actions);
  }

  /** Scheduled as an RTOS would, two contexts both pass the test before either sets the lock. */
  lemma {:induction false} SchedulingBreaksExclusion()
    ensures exists w: World, actions: seq<Action> ::
              Inv(w) && CanRun(w, actions) && OwnersUnlock(actions) && !Exclusive(RunAll(w, actions))
  {
    var w := World(UNLOCKED, [Idle, Idle]);
    var a, b, c, d := Action(0, Test), Action(1, Test), Action(0, Set), Action(1, Set);
    var actions := [a, b, c, d];
    assert actions[1..] == [b, c, d] && actions[1..][1..] == [c, d] && actions[1..][1..][1..] == [d];
    var w2 := World(UNLOCKED, [Tested, Tested]);
    var w4 := World(LOCKED, [Critical, Critical]);
    assert StepBy(StepBy(w, 0, Test), 1, Test) == w2;
    assert StepBy(StepBy(w2, 0, Set), 1, Set) == w4;
    assert [d][1..] == [] && [d][0] == d;
    assert StepBy(StepBy(w2, 0, Set), 1, Set) == w4 && CanRun(w4, []) && RunAll(w4, []) == w4;
    assert CanRun(StepBy(w2, 0, Set), [d]) && RunAll(StepBy(w2, 0, Set), [d]) == w4;
    assert CanRun(w2, [c, d]) && RunAll(w2, [c, d]) == w4;
    assert CanRun(StepBy(w, 0, Test), [b, c, d]);
    assert CanRun(w, actions) && RunAll(w, actions) == w4;
    assert w4.stack[0] == Critical && w4.stack[1] == Critical;
  }

  // ----- the code -----

  /** What a HAL call does to the peripheral behind the handle, as its first and its last access. */
  datatype Mark = Begin(call: nat) | End(call: nat)

  /** Every call's work is done in one piece. */
  predicate Whole(marks: seq<Mark>) {
    marks == [] ||
    (|marks| >= 2 && marks[0].Begin? && marks[1] == End(marks[0].call) && Whole(marks[2..]))
  }

  lemma {:induction false} WholeConcat(a: seq<Mark>, b: seq<Mark>)
    requires Whole(a) && Whole(b)
    ensures Whole(a + b)
  {
    if a == [] {
      assert a + b == b;
    } else {
      assert (a + b)[2..] == a[2..] + b;
      WholeConcat(a[2..], b);
    }
  }

  /** From one log to a longer one, the work in between was done in whole pieces. */
  ghost predicate WholeSince(before: seq<Mark>, after: seq<Mark>) {
    before <= after && Whole(after[|before|..])
  }

  lemma WholeThen(a: seq<Mark>, b: seq<Mark>, c: seq<Mark>)
    requires WholeSince(a, b) && WholeSince(b, c)
    ensures WholeSince(a, c)
  {
    assert c[|a|..] == b[|a|..] + c[|b|..];
    WholeConcat(b[|a|..], c[|b|..]);
  }

  lemma WholeStays(a: seq<Mark>)
    ensures WholeSince(a, a)
  {
    assert a[|a|..] == [];
  }

  lemma OneWhole(a: seq<Mark>, call: nat)
    ensures WholeSince(a, a + [Begin(call), End(call)])
  {
    var marks := [Begin(call), End(call)];
    assert (a + marks)[|a|..] == marks && marks[2..] == [];
  }

  /**
   A peripheral handle used by HAL calls that an interrupt may preempt at any point, its handler
   making HAL calls of its own, to any depth.
   */
  class Handle {
    var Lock: LockState
    /** The accesses to the peripheral that the lock protects. */
    var work: seq<Mark>
    ghost var stack: seq<Pc>

    ghost predicate Valid()
      reads this
    {
      Inv(World(Lock, stack))
    }

    constructor ()
      ensures Valid() && Lock == UNLOCKED && work == [] && stack == [Idle]
    {
      Lock, work, stack := UNLOCKED, [], [Idle];
    }

    /**
     An interrupt here, or not; its handler makes any number of HAL calls.  While the lock is held every
     one of them is refused, and the peripheral is not touched.
     */
    method Interrupt(depth: nat)
      requires Valid()
      modifies this
      ensures Lock == old(Lock) && stack == old(stack)
      ensures WholeSince(old(work), work)
      ensures Lock == LOCKED ==> work == old(work)
      decreases depth, 1
    {
      var taken: bool := *;
      WholeStays(work);
      if taken && depth > 0 {
        var calls :| calls >= 0;
        NestedStep(World(Lock, stack), Preempt);
        stack := stack + [Idle];
        for n := 0 to calls
          invariant Valid() && Lock == old(Lock) && stack == old(stack) + [Idle]
          invariant WholeSince(old(work), work)
          invariant Lock == LOCKED ==> work == old(work)
        {
          ghost var was := work;
          var status := Call(depth - 1);
          assert Lock == LOCKED ==> status == BUSY;
          WholeThen(old(work), was, work);
        }
        stack := stack[..|stack| - 1];
      }
    }

    /**
     __HAL_LOCK: the test and, in a second step, the set.  Refused exactly when the handle is locked;
     otherwise the handle is locked afterwards and this context alone is in its section.
     */
    method Acquire(depth: nat) returns (status: Status)
      requires Valid() && stack[|stack| - 1] == Idle
      modifies this
      ensures status == BUSY <==> old(Lock) == LOCKED
      ensures status == BUSY ==> Lock == LOCKED && stack == old(stack) && work == old(work)
      ensures status == OK ==>
                && Lock == LOCKED && stack == old(stack)[|old(stack)| - 1 := Critical]
                && Valid() && Exclusive(World(Lock, stack)) && WholeSince(old(work), work)
      decreases depth, 2
    {
      ghost var top := |stack| - 1;
      Interrupt(depth);
      if Lock == LOCKED {
        return BUSY;
      }
      ghost var was := work;
      NestedStep(World(Lock, stack), Test);
      stack := stack[top := Tested];
      Interrupt(depth);
      NestedStep(World(Lock, stack), Set);
      Lock := LOCKED;
      stack := stack[top := Critical];
      InvExclusive(World(Lock, stack));
      WholeThen(old(work), was, work);
      return OK;
    }

    /** The protected work, interrupted anywhere: it needs the lock, and nobody else's falls inside it. */
    method Work(depth: nat)
      requires Valid() && Lock == LOCKED && stack[|stack| - 1] == Critical
      modifies this
      ensures Lock == LOCKED && stack == old(stack)
      ensures work == old(work) + [Begin(depth), End(depth)]
      decreases depth, 2
    {
      Interrupt(depth);
      work := work + [Begin(depth)];
      Interrupt(depth);
      work := work + [End(depth)];
      Interrupt(depth);
    }

    /** __HAL_UNLOCK by the context that locked. */
    method Release()
      requires Valid() && stack[|stack| - 1] == Critical
      modifies this`Lock, this`stack
      ensures Valid() && Lock == UNLOCKED && stack == old(stack)[|old(stack)| - 1 := Idle]
    {
      NestedStep(World(Lock, stack), Unlock);
      Lock := UNLOCKED;
      stack := stack[|stack| - 1 := Idle];
    }

    /**
     The frame of a HAL function: __HAL_LOCK, the protected work, __HAL_UNLOCK.  It is refused exactly
     when the handle is locked, and then touches nothing; otherwise its own work is the last thing done,
     in one piece like all that its interrupts' handlers did before, and the handle is free again.
     */
    method Call(depth: nat) returns (status: Status)
      requires Valid() && stack[|stack| - 1] == Idle
      modifies this
      ensures Lock == old(Lock) && stack == old(stack)
      ensures status == BUSY <==> old(Lock) == LOCKED
      ensures status == BUSY ==> work == old(work)
      ensures WholeSince(old(work), work)
      ensures status == OK ==> |work| >= |old(work)| + 2 && work[|work| - 2..] == [Begin(depth), End(depth)]
      decreases depth, 3
    {
      WholeStays(work);
      status := Acquire(depth);
      if status == BUSY {
        return;
      }
      ghost var was := work;
      Work(depth);
      OneWhole(was, depth);
      WholeThen(old(work), was, work);
      Release();
      assert stack == old(stack);
    }
  }
}
