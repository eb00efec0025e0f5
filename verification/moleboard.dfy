/** The board: the grid's moles, the semaphore they share, and the game's
    lifecycle (`MoleBoard`). Every thread runs as the board's atomic steps:
    the board's own methods, and one step of one mole's thread. */
module Boards {

  import opened Results
  import opened JavaNum
  import Gate
  import opened Moles

  /** The exceptions the Java code can throw on these paths. */
  datatype Fault = NullPointer | NegativeArraySize | IndexOutOfBounds

  /** The `moles` array (its entries `null` until `startGame`) and `moleSem`,
      both made by `newGame`. */
  datatype Game = Game(slots: seq<Option<Mole>>, gate: Gate.Semaphore)

  /** The fields of a `MoleBoard`. `game` is `None` until `newGame`; `started`
      stands for `threads != null`. `retired` holds the moles an earlier
      `startGame` created and a later one replaced in the array: their
      threads keep running on the shared semaphore until they return. */
  datatype Board = Board(
    maxMoles: Int32,
    gameSize: Int32,
    columns: Int32,
    inProgress: bool,
    game: Option<Game>,
    started: bool,
    retired: seq<Mole>)

  /** Permits held by the moles in the array. */
  function SlotCount(s: seq<Option<Mole>>): nat {
    if s == [] then 0
    else (if s[0].Some? then Held(s[0].value) else 0) + SlotCount(s[1..])
  }

  /** Permits held by a sequence of moles. */
  function MoleCount(s: seq<Mole>): nat {
    if s == [] then 0 else Held(s[0]) + MoleCount(s[1..])
  }

  /** The moles in the array, in order, skipping `null` entries. */
  function Present(s: seq<Option<Mole>>): (r: seq<Mole>)
    ensures forall m :: m in r ==> Some(m) in s
  {
    if s == [] then []
    else (if s[0].Some? then [s[0].value] else []) + Present(s[1..])
  }

  /** Permits held by all moles whose threads still run on this board. */
  function ActiveCount(b: Board): nat {
    (if b.game.Some? then SlotCount(b.game.value.slots) else 0) + MoleCount(b.retired)
  }

  lemma {:induction false} SlotCountUpdate(s: seq<Option<Mole>>, i: int, m: Mole)
    requires 0 <= i < |s| && s[i].Some?
    ensures SlotCount(s[i := Some(m)]) + Held(s[i].value) == SlotCount(s) + Held(m)
    decreases |s|
  {
    if i > 0 {
      assert s[i := Some(m)][1..] == s[1..][i - 1 := Some(m)];
      SlotCountUpdate(s[1..], i - 1, m);
    } else {
      assert s[i := Some(m)][1..] == s[1..];
    }
  }

  lemma {:induction false} MoleCountUpdate(s: seq<Mole>, j: int, m: Mole)
    requires 0 <= j < |s|
    ensures MoleCount(s[j := m]) + Held(s[j]) == MoleCount(s) + Held(m)
    decreases |s|
  {
    if j > 0 {
      assert s[j := m][1..] == s[1..][j - 1 := m];
      MoleCountUpdate(s[1..], j - 1, m);
    } else {
      assert s[j := m][1..] == s[1..];
    }
  }

  lemma {:induction false} MoleCountAppend(a: seq<Mole>, c: seq<Mole>)
    ensures MoleCount(a + c) == MoleCount(a) + MoleCount(c)
    decreases |a|
  {
    if a != [] {
      assert (a + c)[1..] == a[1..] + c;
      MoleCountAppend(a[1..], c);
    } else {
      assert a + c == c;
    }
  }

  /** Moving the array's moles to `retired` keeps every permit counted. */
  lemma {:induction false} PresentCount(s: seq<Option<Mole>>)
    ensures MoleCount(Present(s)) == SlotCount(s)
    decreases |s|
  {
    if s != [] {
      PresentCount(s[1..]);
      MoleCountAppend(if s[0].Some? then [s[0].value] else [], Present(s[1..]));
      if s[0].Some? {
        assert MoleCount([s[0].value]) == Held(s[0].value) by {
          assert [s[0].value][1..] == [];
        }
      }
    }
  }

  /** An array of moles none of which is active holds no permit. */
  lemma {:induction false} SlotCountIdle(s: seq<Option<Mole>>)
    requires forall i :: 0 <= i < |s| && s[i].Some? ==> !s[i].value.active
    ensures SlotCount(s) == 0
    decreases |s|
  {
    if s != [] {
      assert forall i :: 0 <= i < |s[1..]| ==> s[1..][i] == s[i + 1];
      SlotCountIdle(s[1..]);
    }
  }

  lemma {:induction false} MoleCountIdle(s: seq<Mole>)
    requires forall j :: 0 <= j < |s| ==> !s[j].active
    ensures MoleCount(s) == 0
    decreases |s|
  {
    if s != [] {
      assert forall j :: 0 <= j < |s[1..]| ==> s[1..][j] == s[j + 1];
      MoleCountIdle(s[1..]);
    }
  }

  /** What holds of the board at every point of a game, whatever the
      interleaving of its threads:
      - the game is in progress only after `startGame`;
      - the array has `gameSize` entries, filled exactly once started;
      - every mole, in the array or retired, is well-formed;
      - permits are conserved: free permits plus the permits the active
        moles hold equal `maxMoles`;
      - the free count is non-negative whenever some mole is active. */
  ghost predicate Inv(b: Board) {
    && (b.inProgress ==> b.started)
    && (b.game.None? ==> b.retired == [] && (b.started ==> b.gameSize == 0))
    && (b.game.Some? ==> GameInv(b, b.game.value))
  }

  ghost predicate GameInv(b: Board, g: Game) {
    && |g.slots| == b.gameSize
    && (forall i :: 0 <= i < |g.slots| ==> (g.slots[i].Some? <==> b.started))
    && (!b.started ==> b.retired == [])
    && (forall i :: 0 <= i < |g.slots| && g.slots[i].Some? ==> MoleInv(g.slots[i].value))
    && (forall j :: 0 <= j < |b.retired| ==> MoleInv(b.retired[j]))
    && g.gate.available + ActiveCount(b) == b.maxMoles
    && (g.gate.available >= 0 || ActiveCount(b) == 0)
  }

  /** The number of cells of a `size` by `size` grid, `size * size` in Java
      `int` arithmetic: the true square whenever it fits in an `int`, and
      congruent to it modulo 2^32 otherwise. */
  function Cells(size: Int32): (n: Int32)
    ensures -46340 <= size <= 46340 ==> n == size * size
    ensures (n - size * size) % 0x1_0000_0000 == 0
  {
    var sq := size * size;
    assert -46340 <= size <= 46340 ==> IsInt32(sq) by {
      if -46340 <= size <= 46340 {
        SquareFits(size);
      }
    }
    Wrap32(sq)
  }

  /** Any square of a number of magnitude at most 46340 fits in an `int`. */
  lemma SquareFits(size: int)
    requires -46340 <= size <= 46340
    ensures 0 <= size * size <= 46340 * 46340
  {
    var a: nat := if size < 0 then -size else size;
    assert size * size == a * a;
    MulMono(a, 46340, a);
    MulMono(a, 46340, 46340);
  }

  lemma MulMono(a: nat, b: nat, c: nat)
    requires a <= b
    ensures a * c <= b * c
  {
    assert b * c - a * c == (b - a) * c;
  }

  /** `new MoleBoard(size, maxMoles)`: the grid has `Cells(size)` cells and
      `size` columns; nothing is allocated and no game is in progress. */
  function NewBoard(size: Int32, maxMoles: Int32): (b: Board)
    ensures b.gameSize == Cells(size) && b.columns == size && b.maxMoles == maxMoles
    ensures !b.inProgress && b.game.None? && !b.started && b.retired == []
    ensures Inv(b)
  {
    Board(maxMoles, Cells(size), size, false, None, false, [])
  }

  /** `newGame()`: allocates `gameSize` empty mole slots, then a semaphore
      with `maxMoles` permits; a negative `gameSize` throws before either.
      The board must not have started moles yet: after `startGame`, a new
      game would drop the running moles from the array while their threads
      keep acquiring and releasing on the old semaphore. */
  function NewGame(b: Board): (r: Result<Board, Fault>)
    requires !b.started
    ensures r.Err? <==> b.gameSize < 0
    ensures r.Ok? ==> (
      && r.value.game.Some?
      && |r.value.game.value.slots| == b.gameSize
      && (forall i :: 0 <= i < b.gameSize ==> r.value.game.value.slots[i].None?)
      && r.value.game.value.gate.available == b.maxMoles
      && r.value.(game := b.game) == b)
    ensures Inv(b) && r.Ok? ==> Inv(r.value)
  {
    if b.gameSize < 0 then Err(NegativeArraySize)
    else
      var empty: seq<Option<Mole>> := seq(b.gameSize, _ => None);
      SlotCountIdle(empty);
      Ok(b.(game := Some(Game(empty, Gate.New(b.maxMoles)))))
  }

  /** `startGame(handler)`: one new mole per cell, all told the board has
      `gameSize` moles and all sharing the board's semaphore; then the game is
      in progress. Moles an earlier start put in the array move to `retired`,
      their threads still running. Throws when `gameSize` is negative, and
      when the array was never allocated unless there are no cells to fill. */
  function StartGame(b: Board): (r: Result<Board, Fault>)
    requires b.game.Some? ==> |b.game.value.slots| == b.gameSize
    ensures r.Err? <==> b.gameSize < 0 || (b.gameSize > 0 && b.game.None?)
    ensures r.Ok? ==> r.value.inProgress && r.value.started
    ensures r.Ok? ==>
      r.value.(inProgress := b.inProgress, started := b.started, game := b.game, retired := b.retired) == b
    ensures r.Ok? ==> r.value.game.Some? == b.game.Some?
    ensures r.Ok? && b.game.Some? ==> (
      && r.value.game.value.gate == b.game.value.gate
      && |r.value.game.value.slots| == b.gameSize
      && (forall i :: 0 <= i < b.gameSize ==> r.value.game.value.slots[i] == Some(NewMole(b.gameSize)))
      && r.value.retired == b.retired + Present(b.game.value.slots))
    ensures r.Ok? ==> ActiveCount(r.value) == ActiveCount(b)
    ensures Inv(b) && r.Ok? ==> Inv(r.value)
  {
    if b.gameSize < 0 then Err(NegativeArraySize)
    else if b.game.None? then
      if b.gameSize == 0 then Ok(b.(started := true, inProgress := true)) else Err(NullPointer)
    else
      var g := b.game.value;
      var newSlots := seq(b.gameSize, _ => Some(NewMole(b.gameSize)));
      var b' := b.(game := Some(g.(slots := newSlots)), retired := b.retired + Present(g.slots),
                   started := true, inProgress := true);
      StartGameKeepsInv(b, b');
      Ok(b')
  }

  lemma StartGameKeepsInv(b: Board, b': Board)
    requires b.game.Some? && |b.game.value.slots| == b.gameSize >= 0
    requires b' == b.(game := Some(b.game.value.(slots := seq(b.gameSize, _ => Some(NewMole(b.gameSize))))),
                      retired := b.retired + Present(b.game.value.slots), started := true, inProgress := true)
    ensures ActiveCount(b') == ActiveCount(b)
    ensures Inv(b) ==> Inv(b')
  {
    var g := b.game.value;
    var newSlots := b'.game.value.slots;
    assert forall i :: 0 <= i < |newSlots| ==> newSlots[i] == Some(NewMole(b.gameSize));
    SlotCountIdle(newSlots);
    PresentCount(g.slots);
    MoleCountAppend(b.retired, Present(g.slots));
    if Inv(b) {
      forall j | 0 <= j < |b'.retired| ensures MoleInv(b'.retired[j]) {
        if j >= |b.retired| {
          var m := b'.retired[j];
          assert m in Present(g.slots);
          assert Some(m) in g.slots;
        }
      }
    }
  }

  /** `getGameProgress()`: on a well-formed board, a game reads as in
      progress only once `startGame` has run. */
  function GameProgress(b: Board): (r: bool)
    ensures Inv(b) && r ==> b.started && (b.game.Some? || b.gameSize == 0)
  {
    b.inProgress
  }

  predicate AllPresent(s: seq<Option<Mole>>) {
    forall i :: 0 <= i < |s| ==> s[i].Some?
  }

  /** `endGame()`: the game is over, and once `startGame` has run every mole
      in the array is marked for termination; nothing else changes, and in
      particular no permit moves. Before `startGame` it only clears the flag. */
  function EndGame(b: Board): (r: Result<Board, Fault>)
    requires b.game.Some? ==> |b.game.value.slots| == b.gameSize
    ensures !b.started ==> r == Ok(b.(inProgress := false))
    ensures r.Ok? ==> !r.value.inProgress && r.value.retired == b.retired && r.value.started == b.started
    ensures r.Ok? ==> r.value.(inProgress := b.inProgress, game := b.game) == b
    ensures r.Ok? ==> r.value.game.Some? == b.game.Some?
    ensures r.Ok? && b.game.Some? ==> (
      && r.value.game.value.gate == b.game.value.gate
      && |r.value.game.value.slots| == |b.game.value.slots|
      && forall i :: 0 <= i < |b.game.value.slots| ==>
           r.value.game.value.slots[i] ==
             (if b.started && b.game.value.slots[i].Some? then Some(Terminate(b.game.value.slots[i].value))
              else b.game.value.slots[i]))
    ensures Inv(b) ==> r.Ok? && Inv(r.value) && ActiveCount(r.value) == ActiveCount(b)
  {
    if !b.started then Ok(b.(inProgress := false))
    else if b.game.None? then
      if b.gameSize > 0 then Err(NullPointer) else Ok(b.(inProgress := false))
    else if !AllPresent(b.game.value.slots) then Err(NullPointer)
    else
      var g := b.game.value;
      var slots := seq(|g.slots|, i requires 0 <= i < |g.slots| => Some(Terminate(g.slots[i].value)));
      var b' := b.(inProgress := false, game := Some(g.(slots := slots)));
      EndGameCount(g.slots, slots);
      Ok(b')
  }

  lemma {:induction false} EndGameCount(s: seq<Option<Mole>>, t: seq<Option<Mole>>)
    requires |s| == |t| && AllPresent(s)
    requires forall i :: 0 <= i < |s| ==> t[i] == Some(Terminate(s[i].value))
    ensures SlotCount(t) == SlotCount(s)
    decreases |s|
  {
    if s != [] {
      EndGameCount(s[1..], t[1..]);
    }
  }

  /** What `hit` does to the mole it targets: `setHitTime(ts)`, then an
      interrupt of its thread if `isActive()`. */
  function Knock(m: Mole, ts: int): (r: Mole)
    ensures r.hitAt == ts
    ensures r.interruptPending == (m.interruptPending || m.active)
    ensures r.(hitAt := m.hitAt, interruptPending := m.interruptPending) == m
    ensures MoleInv(m) ==> MoleInv(r) && Held(r) == Held(m)
  {
    var m' := SetHitTime(m, ts);
    if IsActive(m') then Interrupt(m') else m'
  }

  /** `hit(number, ts)`: ignored unless the game is in progress; otherwise the
      click is recorded on mole `number` and that mole's thread is interrupted
      if the mole is active. No other mole, no retired mole and not the
      semaphore change. There is no range check: an index outside the array
      throws. */
  function Hit(b: Board, number: int, ts: int): (r: Result<Board, Fault>)
    ensures !b.inProgress ==> r == Ok(b)
    ensures Inv(b) && b.inProgress ==> (r.Err? <==> !(0 <= number < b.gameSize))
    ensures r.Ok? && b.inProgress ==> (
      && b.game.Some? && 0 <= number < |b.game.value.slots| && b.game.value.slots[number].Some?
      && var g := b.game.value;
         r.value == b.(game := Some(g.(slots := g.slots[number := Some(Knock(g.slots[number].value, ts))]))))
    ensures Inv(b) && r.Ok? ==> Inv(r.value) && ActiveCount(r.value) == ActiveCount(b)
  {
    if !b.inProgress then Ok(b)
    else if b.game.None? then Err(NullPointer)
    else
      var g := b.game.value;
      if !(0 <= number < |g.slots|) then Err(IndexOutOfBounds)
      else if g.slots[number].None? then Err(NullPointer)
      else
        var m' := Knock(g.slots[number].value, ts);
        SlotCountUpdate(g.slots, number, m');
        Ok(b.(game := Some(g.(slots := g.slots[number := Some(m')]))))
  }

  /** One step of the thread of the mole in cell `i`; `None` when there is no
      such mole or the step does not apply to it. Only that mole and the
      semaphore change. */
  function TickCell(b: Board, i: int, t: Tick): (r: Option<Board>)
    ensures r.Some? ==> (
      && b.game.Some? && 0 <= i < |b.game.value.slots| && b.game.value.slots[i].Some?
      && var g := b.game.value;
         var s := Step(g.slots[i].value, g.gate, t);
         s.Some? && r.value == b.(game := Some(Game(g.slots[i := Some(s.value.0)], s.value.1))))
    ensures r.Some? <==>
      b.game.Some? && 0 <= i < |b.game.value.slots| && b.game.value.slots[i].Some?
      && Step(b.game.value.slots[i].value, b.game.value.gate, t).Some?
    ensures Inv(b) && r.Some? ==> Inv(r.value)
  {
    if b.game.None? then None
    else
      var g := b.game.value;
      if !(0 <= i < |g.slots|) || g.slots[i].None? then None
      else
        match Step(g.slots[i].value, g.gate, t)
        case None => None
        case Some((m', gate')) =>
          SlotCountUpdate(g.slots, i, m');
          Some(b.(game := Some(Game(g.slots[i := Some(m')], gate'))))
  }

  /** One step of the thread of retired mole `j`. */
  function TickRetired(b: Board, j: int, t: Tick): (r: Option<Board>)
    ensures r.Some? ==> (
      && b.game.Some? && 0 <= j < |b.retired|
      && var g := b.game.value;
         var s := Step(b.retired[j], g.gate, t);
         s.Some? && r.value == b.(game := Some(g.(gate := s.value.1)), retired := b.retired[j := s.value.0]))
    ensures r.Some? <==>
      b.game.Some? && 0 <= j < |b.retired| && Step(b.retired[j], b.game.value.gate, t).Some?
    ensures Inv(b) && r.Some? ==> Inv(r.value)
  {
    if b.game.None? || !(0 <= j < |b.retired|) then None
    else
      var g := b.game.value;
      match Step(b.retired[j], g.gate, t)
      case None => None
      case Some((m', gate')) =>
        MoleCountUpdate(b.retired, j, m');
        Some(b.(game := Some(g.(gate := gate')), retired := b.retired[j := m']))
  }

}
