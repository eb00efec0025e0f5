/** One mole: the loop of `Mole.run()` cut into its atomic steps. Each
    thread's sleeps end in a step function; the random draws, the clock and
    the arrival of an interrupt are the step's parameters. */
module Moles {

  import opened Results
  import opened Events
  import opened JavaNum
  import Gate

  const MIN_SLEEP: int := 1000
  /** Milliseconds of maximum idle sleep per mole on the board. */
  const SLEEP_PER_MOLE: int := 800
  const MIN_ACTIVE: int := 1000
  const ACTIVE_SPREAD: int := 2000

  /** Where the mole's thread is in `run()`: about to test `running` at the
      loop head, in the idle sleep, in the active sleep, or returned. */
  datatype Phase = LoopHead | IdleSleep | ActiveSleep | Exited

  /** The fields of a `Mole`, the thread's interrupt status and position, and
      the messages it has posted so far (`sent`). */
  datatype Mole = Mole(
    maxSleep: Int32,
    active: bool,
    hitAt: int,
    becameActiveAt: int,
    activeFor: int,
    alreadyBeenHit: bool,
    running: bool,
    phase: Phase,
    interruptPending: bool,
    sent: seq<Event>)

  /** `numMoles * 800` in Java `int` arithmetic. */
  function MaxSleep(numMoles: Int32): (r: Int32)
    ensures 0 <= numMoles <= INT_MAX / SLEEP_PER_MOLE ==> r == numMoles * SLEEP_PER_MOLE
    ensures (r - numMoles * SLEEP_PER_MOLE) % 0x1_0000_0000 == 0
  {
    Wrap32(numMoles * SLEEP_PER_MOLE)
  }

  /** `new Mole(sem, handler, numMoles)`, with its thread not yet past the
      loop head. The zero timestamps and duration make the hit window empty. */
  function NewMole(numMoles: Int32): (m: Mole)
    ensures m.maxSleep == MaxSleep(numMoles)
    ensures m.running && !m.active && !m.alreadyBeenHit && m.phase == LoopHead
    ensures m.sent == [] && !m.interruptPending
    ensures forall t :: !InWindow(m, t)
  {
    Mole(MaxSleep(numMoles), false, 0, 0, 0, false, true, LoopHead, false, [])
  }

  /** Length of the idle sleep for a draw `r` of `Math.random()`,
      `(int)(r * (maxSleep - MIN_SLEEP)) + MIN_SLEEP`. It lies in
      [MIN_SLEEP, maxSleep) when maxSleep exceeds MIN_SLEEP (every value there
      is drawn by some `r`, see `IdleSleepCovers`), is exactly MIN_SLEEP when
      they are equal, and lies in (maxSleep, MIN_SLEEP] on a board too small
      for maxSleep to reach MIN_SLEEP. */
  function IdleSleepMillis(maxSleep: Int32, r: real): (n: int)
    requires 0.0 <= r < 1.0
    ensures maxSleep > MIN_SLEEP ==> MIN_SLEEP <= n < maxSleep
    ensures maxSleep == MIN_SLEEP ==> n == MIN_SLEEP
    ensures maxSleep < MIN_SLEEP ==> maxSleep < n <= MIN_SLEEP
  {
    var span := maxSleep - MIN_SLEEP;
    var x := Scale(r, span);
    DrawBetween(r, span);
    TruncBetween(x, span);
    DoubleToInt(x) + MIN_SLEEP
  }

  /** A draw of `Math.random()` stretched over `span`. */
  function Scale(r: real, span: int): real {
    r * span as real
  }

  /** Truncating a value between 0 and `span` (excluding `span`) lands in the
      same range, and the `int` cast keeps it on the same side. */
  lemma TruncBetween(x: real, span: int)
    requires span > 0 ==> 0.0 <= x < span as real
    requires span < 0 ==> span as real < x <= 0.0
    requires span == 0 ==> x == 0.0
    ensures span > 0 ==> 0 <= DoubleToInt(x) < span
    ensures span < 0 ==> span < DoubleToInt(x) <= 0
    ensures span == 0 ==> DoubleToInt(x) == 0
  {
    var t := TruncReal(x);
    if span > 0 {
      assert 0 <= t < span;
    } else if span < 0 {
      assert span < t <= 0;
    }
  }

  /** A draw scaled by `span` lies between 0 and `span`, excluding `span`. */
  lemma DrawBetween(r: real, span: int)
    requires 0.0 <= r < 1.0
    ensures span > 0 ==> 0.0 <= Scale(r, span) < span as real
    ensures span < 0 ==> span as real < Scale(r, span) <= 0.0
    ensures span == 0 ==> Scale(r, span) == 0.0
  {
    var s := span as real;
    var q := 1.0 - r;
    assert q > 0.0;
    assert Scale(r, span) == s - q * s;
    if span > 0 {
      SignedProduct(r, s);
      SignedProduct(q, s);
    } else if span < 0 {
      SignedProduct(r, -s);
      SignedProduct(q, -s);
      assert q * s == -(q * (-s));
      assert r * s == -(r * (-s));
    }
  }

  lemma SignedProduct(a: real, b: real)
    requires a >= 0.0 && b > 0.0
    ensures a * b >= 0.0
    ensures a > 0.0 ==> a * b > 0.0
  {
  }

  /** The draw that scales to exactly `k`. */
  lemma ScaledDraw(k: nat, span: int) returns (r: real)
    requires k < span
    ensures 0.0 <= r < 1.0
    ensures Scale(r, span) == k as real
  {
    r := k as real / span as real;
    assert r * span as real == k as real;
    assert (1.0 - r) * span as real == (span - k) as real;
  }

  lemma IdleSleepCovers(maxSleep: Int32, k: int)
    requires MIN_SLEEP <= k < maxSleep
    ensures exists r :: 0.0 <= r < 1.0 && IdleSleepMillis(maxSleep, r) == k
  {
    var r := ScaledDraw(k - MIN_SLEEP, maxSleep - MIN_SLEEP);
    var x := Scale(r, maxSleep - MIN_SLEEP);
    assert x == (k - MIN_SLEEP) as real;
    assert TruncReal(x) == k - MIN_SLEEP;
    assert IsInt32(maxSleep);
    assert IsInt32(k - MIN_SLEEP);
    assert DoubleToInt(x) == k - MIN_SLEEP;
    assert IdleSleepMillis(maxSleep, r) == k;
  }

  /** `activeFor = (int)(r * 2000) + 1000` for a draw `r` of `Math.random()`. */
  function ActiveDuration(r: real): (d: int)
    requires 0.0 <= r < 1.0
    ensures MIN_ACTIVE <= d < MIN_ACTIVE + ACTIVE_SPREAD
  {
    DoubleToInt(Scale(r, ACTIVE_SPREAD)) + MIN_ACTIVE
  }

  /** Every duration in [1000, 3000) is drawn by some `r`. */
  lemma ActiveDurationCovers(d: int)
    requires MIN_ACTIVE <= d < MIN_ACTIVE + ACTIVE_SPREAD
    ensures exists r :: 0.0 <= r < 1.0 && ActiveDuration(r) == d
  {
    var r := ScaledDraw(d - MIN_ACTIVE, ACTIVE_SPREAD);
    assert TruncReal((d - MIN_ACTIVE) as real) == d - MIN_ACTIVE;
    assert ActiveDuration(r) == d;
  }

  /** The hit window of the latest activation, open at both ends. */
  function InWindow(m: Mole, t: int): (r: bool)
    ensures r ==> t != m.becameActiveAt && t != m.becameActiveAt + m.activeFor
    ensures r ==> m.activeFor >= 2
  {
    m.becameActiveAt < t < m.becameActiveAt + m.activeFor
  }

  /** `checkHit()`: posts WAS_HIT and latches `alreadyBeenHit` exactly when the
      recorded click lies strictly inside the window and the activation has
      not been hit yet; otherwise nothing happens. */
  function CheckHit(m: Mole): (r: Mole)
    ensures r.sent == m.sent + [WasHit] <==> InWindow(m, m.hitAt) && !m.alreadyBeenHit
    ensures r.sent == m.sent <==> !(InWindow(m, m.hitAt) && !m.alreadyBeenHit)
    ensures r.alreadyBeenHit == (m.alreadyBeenHit || InWindow(m, m.hitAt))
    ensures r == m.(alreadyBeenHit := r.alreadyBeenHit, sent := r.sent)
  {
    if InWindow(m, m.hitAt) && !m.alreadyBeenHit then
      m.(alreadyBeenHit := true, sent := m.sent + [WasHit])
    else m
  }

  /** A click at either end of the window never scores. */
  lemma WindowEndpointsExcluded(m: Mole)
    requires m.hitAt == m.becameActiveAt || m.hitAt == m.becameActiveAt + m.activeFor
    ensures CheckHit(m) == m
  {
  }

  /** A mole that has never become active cannot be hit, whatever click is
      recorded on it: its window is still empty. */
  lemma NoHitBeforeFirstActivation(m: Mole, t: int)
    requires MoleInv(m) && Active !in m.sent
    ensures CheckHit(SetHitTime(m, t)) == SetHitTime(m, t)
  {
    ReplaySound(m.sent);
  }

  /** Once `checkHit()` has fired, checking again changes nothing. */
  lemma CheckHitIdempotent(m: Mole)
    ensures CheckHit(CheckHit(m)) == CheckHit(m)
  {
  }

  /** `setHitTime(t)`: records the click; touches nothing else. */
  function SetHitTime(m: Mole, t: int): (r: Mole)
    ensures r.hitAt == t
    ensures r.(hitAt := m.hitAt) == m
    ensures MoleInv(m) ==> MoleInv(r)
  {
    m.(hitAt := t)
  }

  /** `terminate()`: clears `running` only; a mole in its active sleep keeps
      its permit until it reaches the release. */
  function Terminate(m: Mole): (r: Mole)
    ensures !r.running
    ensures r.(running := m.running) == m
    ensures MoleInv(m) ==> MoleInv(r)
  {
    m.(running := false)
  }

  /** `Thread.interrupt()` on the mole's thread: sets its interrupt status,
      which cuts short the sleep it is in or the next one it enters. */
  function Interrupt(m: Mole): (r: Mole)
    ensures r.interruptPending
    ensures r.(interruptPending := m.interruptPending) == m
    ensures MoleInv(m) ==> MoleInv(r)
  {
    m.(interruptPending := true)
  }

  /** `isActive()`: in a well-formed mole, true exactly while its thread is in
      the active sleep, that is, between taking and returning its permit. */
  function IsActive(m: Mole): (r: bool)
    ensures MoleInv(m) ==> (r <==> m.phase == ActiveSleep)
  {
    m.active
  }

  /** What holds of every mole at every point of its life. The message stream
      follows the protocol; the automaton's open activation is `active`, which
      in turn is the active sleep; a WAS_HIT for the latest activation implies
      the latch is set; before the first activation the window is empty; a
      returned thread had been terminated. */
  ghost predicate MoleInv(m: Mole) {
    && m.active == (m.phase == ActiveSleep)
    && (m.phase == Exited ==> !m.running)
    && Replay(m.sent).Some?
    && Replay(m.sent).value.open == m.active
    && (Replay(m.sent).value.hits > 0 ==> m.alreadyBeenHit)
    && (!Replay(m.sent).value.started ==> m.activeFor == 0)
  }

  /** `checkHit()` keeps a well-formed mole well-formed. */
  lemma CheckHitKeepsInv(m: Mole)
    ensures MoleInv(m) ==> MoleInv(CheckHit(m))
  {
    ReplaySnoc(m.sent, WasHit);
  }

  /** The loop head: `while (running)` either enters the idle sleep or returns.
      The thread can only return from here, where it holds no permit. */
  function Resume(m: Mole): (r: Mole)
    requires m.phase == LoopHead
    ensures r.phase == (if m.running then IdleSleep else Exited)
    ensures r.(phase := LoopHead) == m
    ensures MoleInv(m) ==> MoleInv(r) && !r.active
  {
    m.(phase := if m.running then IdleSleep else Exited)
  }

  /** The idle sleep ends (an interrupt pending on the thread cuts it short and
      is consumed). Then `checkHit()`, then `tryAcquire()`: on failure the
      thread goes back to the loop head with nothing else changed; on success
      it posts ACTIVE, becomes active with a fresh latch, stamps `now` and
      draws its active duration from `r`. */
  function WakeIdle(m: Mole, g: Gate.Semaphore, now: int, r: real): (res: (Mole, Gate.Semaphore))
    requires m.phase == IdleSleep
    requires 0.0 <= r < 1.0
    ensures var c := CheckHit(m);
      if g.available > 0 then
        && res.1.available == g.available - 1
        && res.0.sent == c.sent + [Active]
        && res.0.active && !res.0.alreadyBeenHit && res.0.phase == ActiveSleep
        && !res.0.interruptPending
        && res.0.becameActiveAt == now
        && MIN_ACTIVE <= res.0.activeFor < MIN_ACTIVE + ACTIVE_SPREAD
      else
        && res.1 == g
        && res.0 == c.(phase := LoopHead, interruptPending := false)
    ensures res.0.hitAt == m.hitAt && res.0.running == m.running && res.0.maxSleep == m.maxSleep
    ensures MoleInv(m) ==> MoleInv(res.0)
  {
    var c := CheckHit(m).(interruptPending := false);
    var (acquired, g') := Gate.TryAcquire(g);
    if !acquired then
      (c.(phase := LoopHead), g)
    else
      CheckHitKeepsInv(m);
      ReplaySnoc(c.sent, Active);
      (c.(sent := c.sent + [Active], active := true, alreadyBeenHit := false,
          becameActiveAt := now, activeFor := ActiveDuration(r), phase := ActiveSleep), g')
  }

  /** The active sleep ends, either run out or cut short by the pending
      interrupt (`interrupted`, which needs one pending). Only a cut-short
      sleep checks for a hit here. In both cases the mole posts INACTIVE,
      becomes inactive and releases exactly one permit. An interrupt that was
      not consumed here arrived after the sleep and stays pending. */
  function WakeActive(m: Mole, g: Gate.Semaphore, interrupted: bool): (res: (Mole, Gate.Semaphore))
    requires m.phase == ActiveSleep
    requires interrupted ==> m.interruptPending
    ensures res.1.available == g.available + 1
    ensures !res.0.active && res.0.phase == LoopHead
    ensures interrupted ==> res.0.sent == CheckHit(m).sent + [Inactive] && !res.0.interruptPending
    ensures !interrupted ==> res.0.sent == m.sent + [Inactive] && res.0.interruptPending == m.interruptPending
    ensures res.0.becameActiveAt == m.becameActiveAt && res.0.activeFor == m.activeFor
    ensures res.0.alreadyBeenHit == (if interrupted then CheckHit(m) else m).alreadyBeenHit
    ensures res.0.hitAt == m.hitAt && res.0.running == m.running && res.0.maxSleep == m.maxSleep
    ensures MoleInv(m) ==> MoleInv(res.0)
  {
    var c := if interrupted then CheckHit(m).(interruptPending := false) else m;
    CheckHitKeepsInv(m);
    ReplaySnoc(c.sent, Inactive);
    (c.(sent := c.sent + [Inactive], active := false, phase := LoopHead), Gate.Release(g))
  }

  /** What the scheduler lets a mole's thread do next. */
  datatype Tick = AtLoopHead | IdleWake(now: int, r: real) | ActiveWake(interrupted: bool)

  /** Permits the mole holds: one while active. */
  function Held(m: Mole): nat {
    if m.active then 1 else 0
  }

  /** One atomic step of the mole's thread against the shared semaphore, or
      `None` when the step does not apply in the thread's phase. Every step
      keeps the mole well-formed and conserves permits: what the mole holds
      plus what the semaphore has free is unchanged. A step that takes a
      permit leaves the count non-negative; one that returns a permit was
      taken by an active mole. */
  function Step(m: Mole, g: Gate.Semaphore, t: Tick): (res: Option<(Mole, Gate.Semaphore)>)
    ensures res.Some? && MoleInv(m) ==> MoleInv(res.value.0)
    ensures res.Some? && MoleInv(m) ==>
      res.value.1.available + Held(res.value.0) == g.available + Held(m)
    ensures res.Some? && res.value.1.available < g.available ==> res.value.1.available >= 0
    ensures res.Some? && MoleInv(m) && res.value.1.available > g.available ==> m.active
    ensures res.Some? ==> res.value.0.hitAt == m.hitAt && res.value.0.running == m.running
    ensures (m.phase == Exited) ==> res.None?
    ensures res.Some? <==>
      || (t.AtLoopHead? && m.phase == LoopHead)
      || (t.IdleWake? && m.phase == IdleSleep && 0.0 <= t.r < 1.0)
      || (t.ActiveWake? && m.phase == ActiveSleep && (t.interrupted ==> m.interruptPending))
  {
    match t
    case AtLoopHead =>
      if m.phase == LoopHead then Some((Resume(m), g)) else None
    case IdleWake(now, r) =>
      if m.phase == IdleSleep && 0.0 <= r < 1.0 then Some(WakeIdle(m, g, now, r)) else None
    case ActiveWake(interrupted) =>
      if m.phase == ActiveSleep && (interrupted ==> m.interruptPending) then
        Some(WakeActive(m, g, interrupted))
      else None
  }

  /** A thread that has not returned can always move: the loop head runs, an
      idle sleep ends whatever the draw, and an active sleep can always run
      out. Only a returned thread is stuck. */
  lemma {:induction false} OnlyExitedThreadIsStuck(m: Mole, g: Gate.Semaphore)
    ensures m.phase != Exited <==> exists t :: Step(m, g, t).Some?
  {
    if m.phase == LoopHead {
      assert Step(m, g, AtLoopHead).Some?;
    } else if m.phase == IdleSleep {
      assert Step(m, g, IdleWake(0, 0.0)).Some?;
    } else if m.phase == ActiveSleep {
      assert Step(m, g, ActiveWake(false)).Some?;
    }
  }

  /** Permits are released once per successful acquire: the ACTIVE messages a
      well-formed mole has posted (one per acquire) equal its INACTIVE
      messages (one per release) plus the permit it holds now. */
  lemma AcquiresMatchReleases(m: Mole)
    requires MoleInv(m)
    ensures Occurrences(m.sent, Active) == Occurrences(m.sent, Inactive) + Held(m)
    ensures OneHitPerActivation(m.sent)
  {
    ReplaySound(m.sent);
  }

}
