/** The SysTick timer (section B3.3 of the ARMv7-M Architecture Reference Manual) and SysTick_Config. */
module SysTick {
  import opened Words
  import Nvic

  /** LOAD, VAL and CTRL.  CTRL has ENABLE in bit 0, TICKINT in bit 1 and CLKSOURCE in bit 2. */
  datatype Timer = Timer(load: uint32, val: uint32, ctrl: uint32) {

    /** One clock: at 0 the counter reloads, otherwise it counts down. */
    function Clock(): Timer {
      if !Bit(ctrl, 0) then this
      else if val == 0 then this.(val := load)
      else this.(val := val - 1)
    }

    /** The clock raises the interrupt when it takes the counter from 1 to 0. */
    predicate Raises() {
      Bit(ctrl, 0) && Bit(ctrl, 1) && val == 1
    }
  }

  function After(t: Timer, n: nat): Timer {
    if n == 0 then t else After(t, n - 1).Clock()
  }

  /** How many interrupts the first n clocks raise. */
  function Interrupts(t: Timer, n: nat): nat {
    if n == 0 then 0 else Interrupts(t, n - 1) + if After(t, n - 1).Raises() then 1 else 0
  }

  const RELOAD_MASK: uint32 := 0xFF_FFFF

  /** CLKSOURCE, TICKINT and ENABLE. */
  function ControlWord(): uint32 {
    Or(Or(4, 2), 1)
  }

  /** The timer as SysTick_Config(ticks) starts it. */
  function Started(ticks: uint32): Timer
    requires 1 <= ticks <= 0x100_0000
  {
    Timer(ticks - 1, 0, ControlWord())
  }

  lemma ControlBits()
    ensures ControlWord() == 7
    ensures Bit(ControlWord(), 0) && Bit(ControlWord(), 1) && Bit(ControlWord(), 2)
  {
    assert ControlWord() == 7 by {
      assert Or(4, 2) == 6;
    }
  }

  /** Dividing by n as the dividend steps from i to i + 1. */
  lemma DivStep(i: nat, n: nat)
    requires n >= 1
    ensures (i + 1) / n == i / n + (if i % n == n - 1 then 1 else 0)
    ensures (i + 1) % n == (if i % n == n - 1 then 0 else i % n + 1)
  {
    if i % n == n - 1 {
      MulSucc(i / n, n);
      DivModUnique(i + 1, n, i / n + 1, 0);
    } else {
      DivModUnique(i + 1, n, i / n, i % n + 1);
    }
  }

  /** Where the counter stands after n clocks, and how often it has fired. */
  lemma {:induction false} CounterAfter(ticks: uint32, n: nat)
    requires 2 <= ticks <= 0x100_0000
    ensures After(Started(ticks), n).load == ticks - 1 && After(Started(ticks), n).ctrl == ControlWord()
    ensures After(Started(ticks), n).val == (if n % ticks == 0 then 0 else ticks - n % ticks)
    ensures Interrupts(Started(ticks), n) == n / ticks
  {
    ControlBits();
    hide ControlWord;
    if n == 0 {
    } else {
      CounterAfter(ticks, n - 1);
      DivStep(n - 1, ticks);
    }
  }

  lemma {:induction false} NeverFires(n: nat)
    ensures After(Started(1), n) == Started(1) && Interrupts(Started(1), n) == 0
  {
    if n > 0 {
      NeverFires(n - 1);
    }
  }

  /**
   A timer started for `ticks` raises exactly floor(n / ticks) interrupts in its first n clocks, for
   every n; except for ticks = 1, which the routine accepts and which never fires.
   */
  lemma {:induction false} Period(ticks: uint32)
    requires 1 <= ticks <= 0x100_0000
    ensures (forall n: nat :: Interrupts(Started(ticks), n) == n / ticks) <==> ticks >= 2
  {
    if ticks >= 2 {
      forall n: nat ensures Interrupts(Started(ticks), n) == n / ticks {
        CounterAfter(ticks, n);
      }
    } else {
      NeverFires(1);
      assert Interrupts(Started(ticks), 1) != 1 / ticks;
    }
  }

  /** An accepted period fits the 24 reload bits. */
  lemma ReloadFits(ticks: uint32)
    requires 1 <= ticks <= 0x100_0000
    ensures And(Sub(ticks, 1), RELOAD_MASK) == ticks - 1
  {
    Pow2Values();
    hide And, Pow2;
    AndOnes(ticks - 1, 24);
    Nvic.ModSmall(ticks - 1, 0x100_0000);
  }

  /** The wrap of `ticks - 1` makes 0 fail the test as well. */
  lemma PeriodTest(ticks: uint32)
    ensures Sub(ticks, 1) > RELOAD_MASK <==> !(1 <= ticks <= 0x100_0000)
  {
  }

  lemma LowestPriority(n: Nvic.PrioBits)
    ensures Sub(Shl(1, n), 1) % Pow2(n) == Pow2(n) - 1
  {
    Nvic.OnesValue(n);
    Nvic.ModSmall(Nvic.Ones(n), Pow2(n));
  }

  class Device {
    var timer: Timer
    const nvic: Nvic.Controller

    constructor (t: Timer, c: Nvic.Controller)
      ensures timer == t && nvic == c
    {
      timer, nvic := t, c;
    }

    /**
     SysTick_Config.  Impossible periods (0, or more than 2^24) change nothing; otherwise the timer is
     started and its exception has the lowest priority, and no other priority changes.
     */
    method Config(ticks: uint32) returns (r: uint32)
      requires nvic.Valid()
      modifies this, nvic`ip, nvic`shpr
      ensures nvic.Valid()
      ensures r == (if 1 <= ticks <= 0x100_0000 then 0 else 1)
      ensures r == 1 ==> timer == old(timer) && nvic.ip == old(nvic.ip) && nvic.shpr == old(nvic.shpr)
      ensures r == 0 ==>
                && timer == Started(ticks) == Timer(ticks - 1, 0, 7)
                && nvic.ip == old(nvic.ip) && nvic.shpr[11] == (Pow2(nvic.prioBits) - 1) * Pow2(8 - nvic.prioBits)
                && Shr(nvic.PriorityRegister(-1), 8 - nvic.prioBits) == Pow2(nvic.prioBits) - 1
                && forall e: Nvic.Exception | e != -1 :: nvic.PriorityRegister(e) == old(nvic.PriorityRegister(e))
    {
      hide And, Shl, Shr, Sub, Bit, ControlWord, Pow2, Nvic.Ones;
      PeriodTest(ticks);
      ControlBits();
      if Sub(ticks, 1) > RELOAD_MASK {
        return 1;
      }
      ReloadFits(ticks);
      LowestPriority(nvic.prioBits);
      timer := timer.(load := And(Sub(ticks, 1), RELOAD_MASK));
      nvic.SetPriority(-1, Sub(Shl(1, nvic.prioBits), 1));
      timer := timer.(val := 0);
      timer := timer.(ctrl := ControlWord());
      return 0;
    }
  }
}
