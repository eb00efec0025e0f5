/** Any interleaving of the board's methods and its moles' thread steps, and
    what holds after every one of them. */
module Safety {

  import opened Results
  import opened JavaNum
  import opened Events
  import opened Moles
  import opened Boards

  /** One atomic action: a board method called from the UI thread, or one
      step of one mole's thread (in the array, or retired). */
  datatype Action =
    | NewGameCall
    | StartGameCall
    | EndGameCall
    | HitCall(number: int, ts: int)
    | CellTick(cell: int, tick: Tick)
    | RetiredTick(index: int, tick: Tick)

  /** The board after one action; `None` when the action throws or does not
      apply (a mole step its thread is not at, or `newGame` on a started
      board, which the model leaves out). Every action keeps the invariant. */
  function Next(b: Board, a: Action): (r: Option<Board>)
    requires Inv(b)
    ensures r.Some? ==> Inv(r.value)
    ensures r.Some? <==>
      match a
      case NewGameCall => !b.started && NewGame(b).Ok?
      case StartGameCall => StartGame(b).Ok?
      case EndGameCall => true
      case HitCall(n, ts) => Hit(b, n, ts).Ok?
      case CellTick(i, t) => TickCell(b, i, t).Some?
      case RetiredTick(j, t) => TickRetired(b, j, t).Some?
  {
    match a
    case NewGameCall =>
      if b.started then None
      else (match NewGame(b) case Ok(b') => Some(b') case Err(_) => None)
    case StartGameCall =>
      (match StartGame(b) case Ok(b') => Some(b') case Err(_) => None)
    case EndGameCall =>
      (match EndGame(b) case Ok(b') => Some(b') case Err(_) => None)
    case HitCall(number, ts) =>
      (match Hit(b, number, ts) case Ok(b') => Some(b') case Err(_) => None)
    case CellTick(i, t) => TickCell(b, i, t)
    case RetiredTick(j, t) => TickRetired(b, j, t)
  }

  /** Runs a sequence of actions; `None` as soon as one throws or does not
      apply. The invariant holds after any run that gets through. */
  function Run(b: Board, actions: seq<Action>): (r: Option<Board>)
    requires Inv(b)
    ensures r.Some? ==> Inv(r.value)
    decreases |actions|
  {
    if actions == [] then Some(b)
    else
      match Next(b, actions[0])
      case None => None
      case Some(b') => Run(b', actions[1..])
  }

  /** Permits are conserved on every board a game can reach: free permits
      plus active moles equal `maxMoles`, so no more than `maxMoles` moles
      are ever active at once (and none while the count is not positive). */
  lemma PermitsConserved(size: Int32, maxMoles: Int32, actions: seq<Action>)
    ensures var r := Run(NewBoard(size, maxMoles), actions);
      r.Some? ==>
        && (r.value.game.Some? ==> r.value.game.value.gate.available + ActiveCount(r.value) == maxMoles)
        && (ActiveCount(r.value) <= maxMoles || ActiveCount(r.value) == 0)
  {
    if Run(NewBoard(size, maxMoles), actions).None? {
      return;
    }
    var b0 := NewBoard(size, maxMoles);
    var b := Run(b0, actions).value;
    assert Inv(b) && b.maxMoles == maxMoles by {
      RunKeepsConfiguration(b0, actions);
    }
    CapacityBound(b);
  }

  /** No action changes the board's configuration. */
  lemma {:induction false} RunKeepsConfiguration(b: Board, actions: seq<Action>)
    requires Inv(b) && Run(b, actions).Some?
    ensures Run(b, actions).value.maxMoles == b.maxMoles
    ensures Run(b, actions).value.gameSize == b.gameSize
    decreases |actions|
  {
    if actions != [] {
      var b' := Next(b, actions[0]).value;
      RunKeepsConfiguration(b', actions[1..]);
    }
  }

  /** On a well-formed board the semaphore caps the active moles. */
  lemma CapacityBound(b: Board)
    requires Inv(b)
    ensures b.game.Some? ==> b.game.value.gate.available + ActiveCount(b) == b.maxMoles
    ensures ActiveCount(b) <= b.maxMoles || ActiveCount(b) == 0
  {
  }

  /** Every mole on a well-formed board, in the array or retired, has posted
      at most one WAS_HIT per activation and none before its first, and one
      INACTIVE (one release) per ACTIVE (one acquire) apart from the permit
      it holds now. */
  lemma EveryMoleFollowsProtocol(b: Board)
    requires Inv(b) && b.game.Some?
    ensures forall i :: 0 <= i < |b.game.value.slots| && b.game.value.slots[i].Some? ==>
      var m := b.game.value.slots[i].value;
      && OneHitPerActivation(m.sent)
      && Occurrences(m.sent, Active) == Occurrences(m.sent, Inactive) + Held(m)
    ensures forall j :: 0 <= j < |b.retired| ==>
      var m := b.retired[j];
      && OneHitPerActivation(m.sent)
      && Occurrences(m.sent, Active) == Occurrences(m.sent, Inactive) + Held(m)
  {
    var g := b.game.value;
    forall i | 0 <= i < |g.slots| && g.slots[i].Some?
      ensures OneHitPerActivation(g.slots[i].value.sent)
      ensures Occurrences(g.slots[i].value.sent, Active)
                == Occurrences(g.slots[i].value.sent, Inactive) + Held(g.slots[i].value)
    {
      AcquiresMatchReleases(g.slots[i].value);
    }
    forall j | 0 <= j < |b.retired|
      ensures OneHitPerActivation(b.retired[j].sent)
      ensures Occurrences(b.retired[j].sent, Active)
                == Occurrences(b.retired[j].sent, Inactive) + Held(b.retired[j])
    {
      AcquiresMatchReleases(b.retired[j]);
    }
  }

  /** Termination never leaks a permit: once every mole's thread has returned,
      the semaphore holds all `maxMoles` permits again. */
  lemma NoPermitLeakedOnExit(b: Board)
    requires Inv(b) && b.game.Some?
    requires forall i :: 0 <= i < |b.game.value.slots| && b.game.value.slots[i].Some? ==>
      b.game.value.slots[i].value.phase == Exited
    requires forall j :: 0 <= j < |b.retired| ==> b.retired[j].phase == Exited
    ensures b.game.value.gate.available == b.maxMoles
  {
    SlotCountIdle(b.game.value.slots);
    MoleCountIdle(b.retired);
  }

  /** After `endGame()`, a mole of the array whose thread comes round to the
      loop head returns there, without touching the semaphore. */
  lemma EndedMoleExitsAtLoopHead(b: Board, i: int)
    requires Inv(b) && b.started && b.game.Some? && 0 <= i < b.gameSize
    requires b.game.value.slots[i].value.phase == LoopHead
    ensures EndGame(b).Ok?
    ensures var e := EndGame(b).value;
      var n := TickCell(e, i, AtLoopHead);
      && n.Some?
      && n.value.game.value.slots[i].value.phase == Exited
      && n.value.game.value.gate == b.game.value.gate
  {
  }

  /** `endGame()` does not stop a mole that is in its idle sleep: it still
      checks the semaphore when it wakes and can pop up one last time, since
      `running` is only tested at the loop head. */
  lemma EndedMoleMayStillActivate(b: Board, i: int, now: int, r: real)
    requires Inv(b) && b.started && b.game.Some? && 0 <= i < b.gameSize
    requires b.game.value.slots[i].value.phase == IdleSleep
    requires b.game.value.gate.available > 0
    requires 0.0 <= r < 1.0
    ensures EndGame(b).Ok?
    ensures var e := EndGame(b).value;
      var n := TickCell(e, i, IdleWake(now, r));
      && n.Some?
      && !n.value.game.value.slots[i].value.running
      && n.value.game.value.slots[i].value.active
      && n.value.game.value.slots[i].value.sent[|n.value.game.value.slots[i].value.sent| - 1] == Active
  {
  }

  /** A click on an active mole ends its activation at once: `hit` interrupts
      the thread, the cut-short active sleep checks the click, and the mole
      posts WAS_HIT exactly when the click lies inside its window and it was
      not hit before, then INACTIVE, and returns its permit. Either way the
      activation can score no more. */
  lemma HitOnActiveMole(b: Board, number: int, ts: int)
    requires Inv(b) && b.inProgress && 0 <= number < b.gameSize
    requires b.game.value.slots[number].value.active
    ensures var m := b.game.value.slots[number].value;
      && Hit(b, number, ts).Ok?
      && var n := TickCell(Hit(b, number, ts).value, number, ActiveWake(true));
         && n.Some?
         && var m' := n.value.game.value.slots[number].value;
            && m'.sent == m.sent + (if InWindow(m, ts) && !m.alreadyBeenHit then [WasHit] else []) + [Inactive]
            && !m'.active
            && (InWindow(m, ts) ==> m'.alreadyBeenHit)
            && n.value.game.value.gate.available == b.game.value.gate.available + 1
  {
  }

}
