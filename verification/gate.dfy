/** The counting semaphore shared by all moles of a board. The moles only
    ever call the non-blocking `tryAcquire()` and `release()`, so fairness
    plays no part and the semaphore is its permit count. */
module Gate {

  /** `available` may start negative, as Java's `Semaphore(int)` allows; no
      acquire succeeds until releases have raised it above zero. */
  datatype Semaphore = Semaphore(available: int)

  /** `new Semaphore(permits, fair)`. */
  function New(permits: int): (s: Semaphore)
    ensures s.available == permits
  {
    Semaphore(permits)
  }

  /** `tryAcquire()`: takes one permit when one is free and reports whether it
      did; never waits. */
  function TryAcquire(s: Semaphore): (r: (bool, Semaphore))
    ensures r.0 <==> s.available > 0
    ensures r.0 ==> r.1.available == s.available - 1 && r.1.available >= 0
    ensures !r.0 ==> r.1 == s
  {
    if s.available > 0 then (true, Semaphore(s.available - 1)) else (false, s)
  }

  /** `release()`: returns one permit. Java does not check that the caller
      holds one, and neither does this. */
  function Release(s: Semaphore): (r: Semaphore)
    ensures r.available == s.available + 1
  {
    Semaphore(s.available + 1)
  }

  /** A successful acquire followed by its release leaves the semaphore as it
      was; a failed acquire leaves it unchanged on its own. */
  lemma AcquireReleaseRoundTrip(s: Semaphore)
    ensures TryAcquire(s).0 ==> Release(TryAcquire(s).1) == s
    ensures !TryAcquire(s).0 ==> TryAcquire(s).1 == s
  {
  }

}
