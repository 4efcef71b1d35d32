/** The progress bar of public/app.js: `setProgress`, `startFakeProgress`, its tick and `stopFakeProgress`. */
module Progress {
  const TickCap := 70
  const StartPct := 3
  const TickDivisor := 6

  function Max(a: int, b: int): int
  {
    if a >= b then a else b
  }

  /** `Math.max(0, Math.min(100, Math.round(pct)))` on an integer: the nearest value in [0, 100]. */
  function Clamp(pct: int): (n: int)
    ensures 0 <= n <= 100
    ensures forall m :: 0 <= m <= 100 ==> Dist(n, pct) <= Dist(m, pct)
  {
    Max(0, if pct <= 100 then pct else 100)
  }

  function Dist(a: int, b: int): nat
  {
    if a >= b then a - b else b - a
  }

  /** `message || (n < 100 ? 'Working...' : 'Complete')`. */
  function ShownMessage(message: string, n: int): string
  {
    if message != "" then message else if n < 100 then "Working..." else "Complete"
  }

  /**
   * One tick: add `Math.max(1, Math.floor((70 - c) / 6))` and cap at 70. Dafny's `/` with a positive
   * divisor rounds down like `Math.floor`, also when `70 - c` is negative.
   */
  function NextPct(c: int): (n: int)
    ensures n <= TickCap
    ensures c < TickCap ==> c < n
    ensures c >= TickCap ==> n == TickCap
    ensures c >= 0 ==> n >= 1
  {
    var m := c + Max(1, (TickCap - c) / TickDivisor);
    if m >= TickCap then TickCap else m
  }

  /** The number of ticks from `c` until the tick stops itself at 70. */
  function TicksToCap(c: int): nat
    decreases TickCap - c
  {
    if c >= TickCap then 0 else 1 + TicksToCap(NextPct(c))
  }

  /** The value after `k` ticks from `c`. */
  function Iterate(c: int, k: nat): int
    decreases k
  {
    if k == 0 then c else Iterate(NextPct(c), k - 1)
  }

  /**
   * From any value at most 70 the ticks reach 70 after `TicksToCap(c)` steps, stay strictly below
   * 70 before that, and never exceed it.
   */
  lemma {:induction false} ReachesCap(c: int)
    requires c <= TickCap
    ensures Iterate(c, TicksToCap(c)) == TickCap
    ensures forall k :: 0 <= k < TicksToCap(c) ==> Iterate(c, k) < TickCap
    decreases TickCap - c
  {
    if c < TickCap {
      ReachesCap(NextPct(c));
      forall k | 0 < k < TicksToCap(c) ensures Iterate(c, k) < TickCap {
        assert Iterate(c, k) == Iterate(NextPct(c), k - 1);
      }
    }
  }

  /** The values after successive ticks increase strictly until 70. */
  lemma {:induction false} IterateIncreasing(c: int, k: nat)
    requires Iterate(c, k + 1) < TickCap || Iterate(c, k) < TickCap
    ensures Iterate(c, k) < Iterate(c, k + 1)
    decreases k
  {
    if k > 0 {
      IterateIncreasing(NextPct(c), k - 1);
    }
  }

  /** From the start value 3 the bar reaches 70 after 22 ticks. */
  lemma TicksFromStart()
    ensures TicksToCap(StartPct) == 22
  {
    assert NextPct(3) == 14 && NextPct(14) == 23 && NextPct(23) == 30 && NextPct(30) == 36;
    assert NextPct(36) == 41 && NextPct(41) == 45 && NextPct(45) == 49 && NextPct(49) == 52;
    assert NextPct(52) == 55 && NextPct(55) == 57 && NextPct(57) == 59 && NextPct(59) == 60;
    assert TicksToCap(60) == 10;
  }

  /** The module-level progress state and what the bar shows. */
  class ProgressBar {
    /** `currentFakePct`. */
    var current: int
    /** `fakeProgressInterval !== null`. */
    var handleSet: bool
    /** Whether the interval still fires; the tick clears it without resetting the handle. */
    var running: bool
    /** The fill width and the percentage text. */
    var shownPct: int
    var shownMessage: string

    ghost predicate Valid()
      reads this
    {
      0 <= current <= 100 && 0 <= shownPct <= 100 && (running ==> handleSet)
    }

    /** The bar as created: `0%`, `Idle`, no interval. */
    constructor()
      ensures Valid()
      ensures current == 0 && !handleSet && !running && shownPct == 0 && shownMessage == "Idle"
    {
      current := 0;
      handleSet := false;
      running := false;
      shownPct := 0;
      shownMessage := "Idle";
    }

    /** `setProgress(pct, message)`: shows the clamped value; `currentFakePct` only ever grows here. */
    method SetProgress(pct: int, message: string)
      modifies this
      ensures shownPct == Clamp(pct)
      ensures current == Max(old(current), shownPct)
      ensures shownMessage == ShownMessage(message, shownPct)
      ensures handleSet == old(handleSet) && running == old(running)
      ensures old(Valid()) ==> Valid()
    {
      var n := Clamp(pct);
      current := Max(current, n);
      shownPct := n;
      shownMessage := ShownMessage(message, n);
    }

    /** `stopFakeProgress()`. */
    method Stop()
      requires Valid()
      modifies this
      ensures Valid()
      ensures !handleSet && !running
      ensures current == old(current) && shownPct == old(shownPct) && shownMessage == old(shownMessage)
    {
      if handleSet {
        running := false;
        handleSet := false;
      }
    }

    /** `startFakeProgress()`: restart from 3 and schedule the tick. */
    method Start()
      requires Valid()
      modifies this
      ensures Valid()
      ensures current == StartPct && shownPct == StartPct && shownMessage == "Starting..."
      ensures handleSet && running
    {
      Stop();
      current := StartPct;
      SetProgress(current, "Starting...");
      handleSet := true;
      running := true;
    }

    /** One firing of the interval. */
    method Tick()
      requires Valid() && running
      modifies this
      ensures Valid()
      ensures current == NextPct(old(current)) && shownPct == current
      ensures shownMessage == "Checking domains..."
      ensures running <==> current < TickCap
      ensures handleSet
    {
      var increment := Max(1, (TickCap - current) / TickDivisor);
      current := current + increment;
      if current >= TickCap {
        current := TickCap;
      }
      SetProgress(current, "Checking domains...");
      if current >= TickCap {
        running := false;
      }
    }
  }
}
