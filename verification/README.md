# Whack-a-mole game engine in Dafny

A model of the game engine of an Android whack-a-mole game: the per-cell
mole thread (`Mole`) and the board that owns the moles and the counting
semaphore they share (`MoleBoard`). The grid has `size * size` cells, each
with a mole whose thread loops: idle sleep, check for a late hit, try to take
a permit, and if that works pop up (ACTIVE), stay up for 1 to 3 seconds,
check for a hit if a click interrupted it (WAS_HIT), go down (INACTIVE) and
return the permit. The semaphore holds `maxMoles` permits, so at most that
many moles are up at once. A click `hit(number, ts)` records its timestamp
on the mole and interrupts the mole's thread if the mole is up.

The threads are replaced by an explicit state machine. A mole record holds
the fields of `Mole`, the thread's position in `run()` (loop head, idle
sleep, active sleep, returned), its interrupt status and the messages it has
posted. Each point where the thread wakes becomes a pure step function whose
nondeterministic inputs are parameters: the clock reading, the draw of
`Math.random()` and whether the pending interrupt cut the sleep short. Any
interleaving of the UI thread's calls and the moles' steps is a sequence of
`Safety.Action`s, and `Safety.Run` proves the board invariant after every
one of them. The invariant covers four things. Free permits plus active moles
equal `maxMoles`. Every mole's message stream follows the ACTIVE / WAS_HIT /
INACTIVE protocol, with at most one WAS_HIT per activation. Each mole has
posted one INACTIVE (one release) per ACTIVE (one acquire), apart from the
permit it holds now. A thread returns only while it holds no permit.

Files: `results.dfy` (Option, Result), `javanum.dfy` (Java `int`
wrap-around and the `double` to `int` cast), `gate.dfy` (the semaphore),
`events.dfy` (message codes and the protocol automaton), `mole.dfy`
(`Mole`), `moleboard.dfy` (`MoleBoard`), `safety.dfy` (interleavings
and the safety theorems).

## Behaviour as coded

The model follows the code in these places, where a natural reading of the
game might expect otherwise:

- The hit window is open at both ends: `becameActiveAt < hitAt < becameActiveAt + activeFor`.
  A click stamped in the same millisecond as the activation does not count.
- A click on an active mole always interrupts it, so the mole goes down at
  once even when the click is outside the window and scores nothing
  (`Safety.HitOnActiveMole`).
- WAS_HIT can come after INACTIVE. The check at the top of the next loop
  scores a click that arrived while the mole was going down. It still counts
  for the activation that just ended, and it is still at most one per
  activation.
- The constructor validates nothing. A negative `size * size` (after
  wrap-around) makes `newGame` throw `NegativeArraySizeException`, and a
  non-positive `maxMoles` gives a semaphore no mole can ever acquire.
- `hit` does no range check. An index outside the grid throws while the game
  is in progress; the model returns `Err(IndexOutOfBounds)`.
- `endGame` only clears `running`, which is tested at the loop head. A mole
  in its idle sleep can still pop up once more after the game has ended
  (`Safety.EndedMoleMayStillActivate`).
- The "reset" path in `MainActivity` calls `endGame` and then `startGame`
  on the same board. The old threads keep running on the shared semaphore
  until they reach their loop head. The model keeps them as `retired` moles
  and counts their permits.

## Model

| member | source | states |
|---|---|---|
| Gate.New | app/src/main/java/com/wilson/scott/whack_a_mole/MoleBoard.java:51 | a new game's semaphore starts with exactly `maxMoles` free permits |
| Gate.TryAcquire | app/src/main/java/com/wilson/scott/whack_a_mole/Mole.java:71-72 | succeeds exactly when a permit is free, then takes exactly one and leaves the count non-negative; a failure leaves the semaphore unchanged |
| Gate.Release | app/src/main/java/com/wilson/scott/whack_a_mole/Mole.java:94-95 | gives back exactly one permit |
| Gate.AcquireReleaseRoundTrip | app/src/main/java/com/wilson/scott/whack_a_mole/Mole.java:72-95 | a successful acquire followed by its release restores the semaphore |
| Events.Code | app/src/main/java/com/wilson/scott/whack_a_mole/Mole.java:26-28 | each message is posted with its own code (ACTIVE 101, WAS_HIT 7, INACTIVE 102), and no two events share a code |
| Events.FromCode | app/src/main/java/com/wilson/scott/whack_a_mole/Mole.java:26-28 | a message code decodes to exactly the event whose code it is, and other codes decode to nothing |
| Events.ReplaySound | app/src/main/java/com/wilson/scott/whack_a_mole/Mole.java:69-95 | a message stream the protocol accepts has at most one WAS_HIT per activation and none before the first ACTIVE, and its ACTIVE count is its INACTIVE count plus the open activation |
| Moles.MaxSleep | app/src/main/java/com/wilson/scott/whack_a_mole/Mole.java:48 | the maximum idle sleep is `numMoles * 800` in Java `int` arithmetic, and exactly that product when it fits |
| Moles.NewMole | app/src/main/java/com/wilson/scott/whack_a_mole/Mole.java:43-49 | a new mole is running, inactive, unhit, has posted nothing, and its hit window is empty |
| Moles.IdleSleepMillis | app/src/main/java/com/wilson/scott/whack_a_mole/Mole.java:64 | the idle sleep lies in `[1000, maxSleep)` when `maxSleep` exceeds 1000, and in `(maxSleep, 1000]` on a board too small for that |
| Moles.IdleSleepCovers | app/src/main/java/com/wilson/scott/whack_a_mole/Mole.java:64 | every length in `[1000, maxSleep)` is the idle sleep for some draw of `Math.random()` |
| Moles.ActiveDuration | app/src/main/java/com/wilson/scott/whack_a_mole/Mole.java:83 | the active duration lies in `[1000, 3000)` |
| Moles.ActiveDurationCovers | app/src/main/java/com/wilson/scott/whack_a_mole/Mole.java:83 | every duration in `[1000, 3000)` is drawn by some value of `Math.random()` |
| Moles.InWindow | app/src/main/java/com/wilson/scott/whack_a_mole/Mole.java:115 | a click scores only strictly inside the window: never at either end, and only in a window at least 2 ms long |
| Moles.CheckHit | app/src/main/java/com/wilson/scott/whack_a_mole/Mole.java:114-121 | posts WAS_HIT and sets the latch exactly when the click lies strictly inside the window and the activation was not hit yet; the latch ends up set exactly when it was set before or the click is in the window; no other field changes |
| Moles.WindowEndpointsExcluded | app/src/main/java/com/wilson/scott/whack_a_mole/Mole.java:115 | a click at either end of the window never scores |
| Moles.NoHitBeforeFirstActivation | app/src/main/java/com/wilson/scott/whack_a_mole/Mole.java:115 | a mole that has never been active cannot be hit, whatever click is recorded |
| Moles.CheckHitIdempotent | app/src/main/java/com/wilson/scott/whack_a_mole/Mole.java:115-116 | after the check fires, a second check changes nothing |
| Moles.SetHitTime | app/src/main/java/com/wilson/scott/whack_a_mole/Mole.java:105-107 | records the click timestamp and nothing else, keeping the mole well-formed |
| Moles.Terminate | app/src/main/java/com/wilson/scott/whack_a_mole/Mole.java:126-128 | clears `running` and nothing else: an active mole keeps its permit |
| Moles.IsActive | app/src/main/java/com/wilson/scott/whack_a_mole/Mole.java:135-137 | on a well-formed mole, true exactly while its thread is in the active sleep |
| Moles.Interrupt | app/src/main/java/com/wilson/scott/whack_a_mole/MoleBoard.java:106 | sets the thread's interrupt status and nothing else |
| Moles.Resume | app/src/main/java/com/wilson/scott/whack_a_mole/Mole.java:57 | the loop head enters the idle sleep while `running`, otherwise the thread returns, and it holds no permit there |
| Moles.WakeIdle | app/src/main/java/com/wilson/scott/whack_a_mole/Mole.java:62-84 | after the idle sleep and the late-hit check, a failed acquire changes nothing more; a successful one takes one permit, posts ACTIVE and starts an activation at `now` with a fresh latch, no pending interrupt (the idle sleep consumed it) and a duration in `[1000, 3000)` |
| Moles.WakeActive | app/src/main/java/com/wilson/scott/whack_a_mole/Mole.java:84-95 | only an interrupted active sleep checks for a hit; either way the mole posts INACTIVE, goes down and returns exactly one permit, and keeps the just-ended window and its latch for the late-hit check at the loop top |
| Moles.Step | app/src/main/java/com/wilson/scott/whack_a_mole/Mole.java:55-98 | every step of the loop keeps the mole well-formed and conserves permits (free plus held), and a returned thread takes no step; a step applies exactly in its phase: the loop head runs, an idle sleep ends on any draw, and an active sleep ends either by running out or, with an interrupt pending, cut short |
| Moles.OnlyExitedThreadIsStuck | app/src/main/java/com/wilson/scott/whack_a_mole/Mole.java:55-98 | a mole's thread can take some step exactly when it has not returned from `run()` |
| Moles.AcquiresMatchReleases | app/src/main/java/com/wilson/scott/whack_a_mole/Mole.java:72-95 | a well-formed mole has posted one INACTIVE per ACTIVE apart from the permit it holds, and at most one WAS_HIT per activation |
| Boards.Cells | app/src/main/java/com/wilson/scott/whack_a_mole/MoleBoard.java:32 | the cell count is `size * size` in Java `int` arithmetic: exact when `abs(size) <= 46340`, congruent modulo 2^32 otherwise |
| Boards.NewBoard | app/src/main/java/com/wilson/scott/whack_a_mole/MoleBoard.java:29-34 | `gameSize` is the `Cells(size)` count, `columns` is `size`, nothing is allocated and no game is in progress |
| Boards.NewGame | app/src/main/java/com/wilson/scott/whack_a_mole/MoleBoard.java:48-52 | allocates exactly `gameSize` empty slots and one semaphore of `maxMoles` permits, and throws exactly when `gameSize` is negative |
| Boards.StartGame | app/src/main/java/com/wilson/scott/whack_a_mole/MoleBoard.java:59-69 | fills every cell with a new mole told `numMoles = gameSize`, all sharing the board's semaphore, then marks the game in progress; moles it replaces keep running and keep their permits; `maxMoles`, `gameSize` and `columns` are unchanged |
| Boards.GameProgress | app/src/main/java/com/wilson/scott/whack_a_mole/MoleBoard.java:76-79 | on a well-formed board a game reads as in progress only after `startGame` |
| Boards.EndGame | app/src/main/java/com/wilson/scott/whack_a_mole/MoleBoard.java:84-91 | clears the in-progress flag and, once started, marks every mole in the array for termination; nothing else changes, and before `startGame` it is a no-op apart from the flag |
| Boards.Knock | app/src/main/java/com/wilson/scott/whack_a_mole/MoleBoard.java:103-107 | records the click on the mole and sets its interrupt status exactly when it was already set or the mole is active |
| Boards.Hit | app/src/main/java/com/wilson/scott/whack_a_mole/MoleBoard.java:100-109 | a no-op unless the game is in progress; otherwise changes only mole `number` (click recorded, interrupted if active) and throws exactly when `number` is outside the grid |
| Boards.TickCell | app/src/main/java/com/wilson/scott/whack_a_mole/MoleBoard.java:63-66 | one step of a cell's mole thread changes only that mole and the semaphore, and keeps the board invariant; it applies exactly when the cell holds a mole whose thread can take that step |
| Boards.TickRetired | app/src/main/java/com/wilson/scott/whack_a_mole/MoleBoard.java:63-66 | one step of a replaced mole's thread changes only that mole and the semaphore, and keeps the board invariant; it applies exactly when that thread can take the step |
| Safety.Next | app/src/main/java/com/wilson/scott/whack_a_mole/MoleBoard.java:51-68 | every board method and every mole step keeps the board invariant (permit conservation, well-formed moles); an action goes through exactly when the board method it names does not throw or the thread step it names applies (`endGame` always, under the invariant) |
| Safety.Run | app/src/main/java/com/wilson/scott/whack_a_mole/Mole.java:55-98 | any interleaving of board methods and mole steps keeps the board invariant |
| Safety.PermitsConserved | app/src/main/java/com/wilson/scott/whack_a_mole/MoleBoard.java:51-64 | on every reachable board, free permits plus active moles equal `maxMoles`, so at most `maxMoles` moles are up at once |
| Safety.CapacityBound | app/src/main/java/com/wilson/scott/whack_a_mole/MoleBoard.java:51 | on a well-formed board the semaphore caps the number of active moles at `maxMoles` |
| Safety.EveryMoleFollowsProtocol | app/src/main/java/com/wilson/scott/whack_a_mole/Mole.java:69-95 | every mole on a well-formed board, current or replaced, has at most one WAS_HIT per activation and one release per acquire |
| Safety.NoPermitLeakedOnExit | app/src/main/java/com/wilson/scott/whack_a_mole/Mole.java:57-98 | once every mole thread has returned, the semaphore again holds all `maxMoles` permits |
| Safety.EndedMoleExitsAtLoopHead | app/src/main/java/com/wilson/scott/whack_a_mole/MoleBoard.java:84-91 | after `endGame`, a mole reaching its loop head returns without touching the semaphore |
| Safety.EndedMoleMayStillActivate | app/src/main/java/com/wilson/scott/whack_a_mole/Mole.java:57-80 | after `endGame`, a mole in its idle sleep can still take a permit and pop up once |
| Safety.HitOnActiveMole | app/src/main/java/com/wilson/scott/whack_a_mole/MoleBoard.java:100-109 | a click on an active mole ends its activation at once; it scores exactly when the click is inside the window and the mole was not hit before, and the permit is returned |

## Left out

- Real threads, `Thread.sleep`, `volatile` and the Java memory model: each thread's work between two wake-ups is one atomic step. The unsynchronised `hitAt` and `active` fields are a data race in the code, and their memory-model effects are not modelled. A click landing inside a step (between the end of a sleep and the following `checkHit`) is not modelled either. The exception is a late interrupt: one that misses the active sleep stays pending and cuts the next idle sleep short.
- `Math.random` and `System.currentTimeMillis`: they are parameters of the steps. The draw is an exact real in `[0, 1)`, so double-precision rounding is not modelled.
- The length of the idle sleep passes only as time and does not enter the state. `Moles.IdleSleepMillis` states its range on its own. A negative length makes `Thread.sleep` throw and ends the thread. This can only happen when `numMoles * 800` overflows (more than 2684354 cells), and the model lets the thread continue.
- Android `Handler` and `Message`: each message a mole posts is appended to that mole's own log. Real messages carry only their code, not the mole.
- Semaphore fairness is left out because `tryAcquire()` ignores it. The `Error` that `release()` throws past `Integer.MAX_VALUE` permits is also left out.
- Timestamps are Java `long`s. They are unbounded integers here, so an overflow of `becameActiveAt + activeFor` is not modelled.
- Boards.NewGame: requires that `startGame` has not run on the board. After a start, `newGame` would drop the running moles from the array while their threads keep the old semaphore, and a later `endGame` would throw on the empty slots. The app never does this: it builds a fresh board instead.
- `getMoles()` (MoleBoard.java:41-43) only returns the array; the model's board exposes its slots directly.
- MainActivity (UI wiring, spinners, score, countdown timer, menus) and MoleAdapter (view inflation over `isActive` and `getGameProgress`) are not part of this model.
