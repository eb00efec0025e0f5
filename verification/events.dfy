/** The messages a mole posts to the UI handler, and the protocol each mole's
    stream of messages follows. */
module Events {

  import opened Results

  /** The `what` codes of the three messages (Mole.java). */
  const WAS_HIT: int := 7
  const MOLEHOLE_ACTIVE: int := 101
  const MOLEHOLE_INACTIVE: int := 102

  datatype Event = Active | WasHit | Inactive

  /** The `what` code each event is posted with; distinct events have
      distinct codes, so the UI can tell them apart. */
  function Code(e: Event): (c: int)
    ensures c == MOLEHOLE_ACTIVE <==> e == Active
    ensures c == WAS_HIT <==> e == WasHit
    ensures c == MOLEHOLE_INACTIVE <==> e == Inactive
  {
    match e
    case Active => MOLEHOLE_ACTIVE
    case WasHit => WAS_HIT
    case Inactive => MOLEHOLE_INACTIVE
  }

  /** Reading a message's `what` back as an event: exactly the event whose
      code it is, and nothing for any other code. */
  function FromCode(c: int): (r: Option<Event>)
    ensures forall e :: r == Some(e) <==> Code(e) == c
  {
    if c == MOLEHOLE_ACTIVE then Some(Active)
    else if c == WAS_HIT then Some(WasHit)
    else if c == MOLEHOLE_INACTIVE then Some(Inactive)
    else None
  }

  /** State of the per-mole protocol automaton: whether an activation is open
      (ACTIVE sent, INACTIVE not yet), whether any activation has happened,
      and how many WAS_HIT messages belong to the latest activation. */
  datatype Protocol = Protocol(open: bool, started: bool, hits: nat)

  const Initial: Protocol := Protocol(false, false, 0)

  /** One message against the protocol: ACTIVE opens a new activation (only
      when none is open), INACTIVE closes the open one, and WAS_HIT is allowed
      once per activation, while it is open or after it closed but before the
      next ACTIVE. */
  function Accept(p: Protocol, e: Event): Option<Protocol> {
    match e
    case Active => if p.open then None else Some(Protocol(true, true, 0))
    case WasHit => if p.started && p.hits == 0 then Some(p.(hits := 1)) else None
    case Inactive => if p.open then Some(p.(open := false)) else None
  }

  /** Runs the automaton over a message stream; `None` if the stream breaks
      the protocol. */
  function Replay(s: seq<Event>): Option<Protocol> {
    if s == [] then Some(Initial)
    else
      match Replay(s[..|s| - 1])
      case None => None
      case Some(p) => Accept(p, s[|s| - 1])
  }

  lemma ReplaySnoc(s: seq<Event>, e: Event)
    ensures Replay(s + [e]) == (if Replay(s).None? then None else Accept(Replay(s).value, e))
  {
    assert (s + [e])[..|s + [e]| - 1] == s;
  }

  /** Number of occurrences of `e` in `s`. */
  function Occurrences(s: seq<Event>, e: Event): nat {
    if s == [] then 0
    else Occurrences(s[..|s| - 1], e) + (if s[|s| - 1] == e then 1 else 0)
  }

  lemma OccurrencesSnoc(s: seq<Event>, e: Event, x: Event)
    ensures Occurrences(s + [x], e) == Occurrences(s, e) + (if x == e then 1 else 0)
  {
    assert (s + [x])[..|s + [x]| - 1] == s;
  }

  /** Some ACTIVE lies strictly between positions `i` and `j`. */
  ghost predicate ActiveBetween(s: seq<Event>, i: int, j: int) {
    exists k :: i < k < j && 0 <= k < |s| && s[k] == Active
  }

  /** Every WAS_HIT is preceded by an ACTIVE, and two WAS_HIT messages always
      have an ACTIVE between them: at most one hit per activation, and none
      before the first. */
  ghost predicate OneHitPerActivation(s: seq<Event>) {
    && (forall j :: 0 <= j < |s| && s[j] == WasHit ==> ActiveBetween(s, -1, j))
    && (forall i, j :: 0 <= i < j < |s| && s[i] == WasHit && s[j] == WasHit ==> ActiveBetween(s, i, j))
  }

  /** What an accepted stream guarantees: one hit per activation, ACTIVE and
      INACTIVE balanced (one INACTIVE per ACTIVE, except the still open
      activation), and the automaton state matches the stream. */
  lemma {:induction false} ReplaySound(s: seq<Event>)
    requires Replay(s).Some?
    ensures OneHitPerActivation(s)
    ensures Occurrences(s, Active) == Occurrences(s, Inactive) + (if Replay(s).value.open then 1 else 0)
    ensures Replay(s).value.hits <= 1
    ensures Replay(s).value.started <==> ActiveBetween(s, -1, |s|)
    ensures Replay(s).value.hits == 0 ==> forall i :: 0 <= i < |s| && s[i] == WasHit ==> ActiveBetween(s, i, |s|)
  {
    if s == [] {
    } else {
      var s', e := s[..|s| - 1], s[|s| - 1];
      assert s == s' + [e];
      ReplaySnoc(s', e);
      ReplaySound(s');
      OccurrencesSnoc(s', Active, e);
      OccurrencesSnoc(s', Inactive, e);
      var p := Replay(s').value;
      forall i, k | 0 <= i < k < |s'| && s'[k] == Active
        ensures ActiveBetween(s, i, |s|) && ActiveBetween(s, -1, |s|)
      {
        assert s[k] == Active;
      }
      forall i, j | -1 <= i < j <= |s'| && ActiveBetween(s', i, j)
        ensures ActiveBetween(s, i, j)
      {
        var k :| i < k < j && 0 <= k < |s'| && s'[k] == Active;
        assert s[k] == Active;
      }
      match e
      case Active =>
        forall i | 0 <= i < |s'| ensures ActiveBetween(s, i, |s|) {
          assert s[|s'|] == Active;
        }
      case WasHit =>
        assert p.started && p.hits == 0;
      case Inactive =>
    }
  }

}
