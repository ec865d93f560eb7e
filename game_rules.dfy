/**
 * The card-flip/match state machine of src/services/Game.service.ts
 * (`flipCard`, `matchCards`), stated as pure transition functions on a game
 * value, together with the invariants the transitions keep.
 *
 * The session cache (module GameService) runs these steps against its
 * cached entries; every failure is a `Result.Err` carrying the message the
 * service throws, and a failure produces no new game.
 */
module GameRules {
  import opened GameModel

  datatype Result<T> = Ok(value: T) | Err(message: string)

  const GameNotFound := "Game not found"
  const NotInProgress := "Game is not in progress"
  const InvalidCardIndex := "Invalid card index"
  const AlreadyRevealed := "Card already flipped or matched"
  const AlreadyTwoFlipped := "Already 2 cards flipped"
  const NeedTwoFlipped := "Need exactly 2 flipped cards"

  /** The deck positions of the FLIPPED cards, in deck order: the service's filter of the deck by status. */
  function FlippedPositions(deck: seq<Card>): (ps: seq<nat>)
    ensures |ps| <= |deck|
    ensures forall k :: 0 <= k < |ps| ==> ps[k] < |deck| && deck[ps[k]].status == Flipped
    ensures forall k, l :: 0 <= k < l < |ps| ==> ps[k] < ps[l]
    ensures forall i :: 0 <= i < |deck| && deck[i].status == Flipped ==> i in ps
  {
    if deck == [] then []
    else
      var n := |deck| - 1;
      FlippedPositions(deck[..n]) + (if deck[n].status == Flipped then [n] else [])
  }

  /** The number of FLIPPED cards; when it is zero, no card of the deck is FLIPPED (`NoneFlipped` is the converse). */
  function CountFlipped(deck: seq<Card>): (n: nat)
    ensures n <= |deck|
    ensures n == 0 ==> forall i :: 0 <= i < |deck| ==> deck[i].status != Flipped
  {
    |FlippedPositions(deck)|
  }

  /** A deck without a FLIPPED card has no FLIPPED positions. */
  lemma {:induction false} NoneFlipped(deck: seq<Card>)
    ensures (forall i :: 0 <= i < |deck| ==> deck[i].status != Flipped) ==> CountFlipped(deck) == 0
  {
    if deck != [] {
      NoneFlipped(deck[..|deck| - 1]);
    }
  }

  function FlippedWeight(s: CardStatus): nat
  {
    if s == Flipped then 1 else 0
  }

  /** Every card of the deck is FOUND: the test that completes a game. */
  predicate AllFound(deck: seq<Card>)
  {
    forall i :: 0 <= i < |deck| ==> deck[i].status == Found
  }

  /** Replacing one card changes the number of FLIPPED cards by that card's contribution only. */
  lemma {:induction false} CountFlippedUpdate(deck: seq<Card>, i: int, c: Card)
    requires 0 <= i < |deck|
    ensures CountFlipped(deck[i := c]) + FlippedWeight(deck[i].status)
         == CountFlipped(deck) + FlippedWeight(c.status)
  {
    var n := |deck| - 1;
    var d := deck[i := c];
    assert d[..n] == if i == n then deck[..n] else deck[..n][i := c];
    if i < n {
      CountFlippedUpdate(deck[..n], i, c);
    }
  }

  function FlipEntry(now: int, cardIndex: int): GameAction
  {
    GameAction(Flip, now, Some(cardIndex), None)
  }

  function MatchEntry(now: int, first: Card, second: Card): GameAction
  {
    GameAction(Match, now, None, Some([first.index, second.index]))
  }

  /**
   * `flipCard` on the looked-up entry (`None` when the cache has no game under
   * the id): the checks run in the service's order, and on success the card
   * at deck position `cardIndex` is FLIPPED and one FLIP entry is logged.
   */
  function FlipOutcome(entry: Option<Game>, cardIndex: int, now: int): Result<Game>
  {
    if entry.None? then Err(GameNotFound)
    else
      var g := entry.value;
      if g.status != InProgress then Err(NotInProgress)
      else if !(0 <= cardIndex < |g.deck|) then Err(InvalidCardIndex)
      else if g.deck[cardIndex].status != Hidden then Err(AlreadyRevealed)
      else if CountFlipped(g.deck) >= 2 then Err(AlreadyTwoFlipped)
      else
        Ok(g.(deck := g.deck[cardIndex := g.deck[cardIndex].(status := Flipped)],
              actions := g.actions + [FlipEntry(now, cardIndex)]))
  }

  /**
   * `matchCards` on the looked-up entry: with exactly two FLIPPED cards, equal
   * values make both FOUND and log one MATCH entry, unequal values turn both
   * back to HIDDEN; the game is COMPLETED once every card is FOUND.
   */
  function MatchOutcome(entry: Option<Game>, now: int): Result<Game>
  {
    if entry.None? then Err(GameNotFound)
    else
      var g := entry.value;
      if g.status != InProgress then Err(NotInProgress)
      else
        var flipped := FlippedPositions(g.deck);
        if |flipped| != 2 then Err(NeedTwoFlipped)
        else
          var p, q := flipped[0], flipped[1];
          var first, second := g.deck[p], g.deck[q];
          var same := first.value == second.value;
          var outcome := if same then Found else Hidden;
          var deck := g.deck[p := first.(status := outcome)][q := second.(status := outcome)];
          var actions := if same then g.actions + [MatchEntry(now, first, second)] else g.actions;
          Ok(g.(deck := deck, actions := actions,
                status := if AllFound(deck) then Completed else g.status))
  }

  /** Failures of `flipCard`, in the order the service checks them. */
  lemma FlipFailures(entry: Option<Game>, cardIndex: int, now: int)
    ensures entry.None? ==> FlipOutcome(entry, cardIndex, now) == Err(GameNotFound)
    ensures entry.Some? && entry.value.status != InProgress ==>
      FlipOutcome(entry, cardIndex, now) == Err(NotInProgress)
    ensures entry.Some? && entry.value.status == InProgress && !(0 <= cardIndex < |entry.value.deck|) ==>
      FlipOutcome(entry, cardIndex, now) == Err(InvalidCardIndex)
    ensures (entry.Some? && entry.value.status == InProgress && 0 <= cardIndex < |entry.value.deck|
             && entry.value.deck[cardIndex].status != Hidden) ==>
      FlipOutcome(entry, cardIndex, now) == Err(AlreadyRevealed)
    ensures (entry.Some? && entry.value.status == InProgress && 0 <= cardIndex < |entry.value.deck|
             && entry.value.deck[cardIndex].status == Hidden && CountFlipped(entry.value.deck) >= 2) ==>
      FlipOutcome(entry, cardIndex, now) == Err(AlreadyTwoFlipped)
    ensures FlipOutcome(entry, cardIndex, now).Ok? <==>
      entry.Some? && entry.value.status == InProgress && 0 <= cardIndex < |entry.value.deck|
      && entry.value.deck[cardIndex].status == Hidden && CountFlipped(entry.value.deck) < 2
  {
  }

  /**
   * A successful flip turns exactly the card at `cardIndex` from HIDDEN to
   * FLIPPED, appends exactly one FLIP entry carrying `cardIndex`, and leaves
   * every other card, the earlier entries, the status and the identity fields
   * as they were; at most two cards are FLIPPED afterwards.
   */
  lemma FlipEffect(g: Game, cardIndex: int, now: int)
    requires FlipOutcome(Some(g), cardIndex, now).Ok?
    ensures var h := FlipOutcome(Some(g), cardIndex, now).value;
      && 0 <= cardIndex < |g.deck| == |h.deck|
      && g.deck[cardIndex].status == Hidden
      && h.deck[cardIndex] == g.deck[cardIndex].(status := Flipped)
      && (forall j :: 0 <= j < |g.deck| && j != cardIndex ==> h.deck[j] == g.deck[j])
      && h.actions == g.actions + [FlipEntry(now, cardIndex)]
      && h.status == g.status == InProgress
      && h.(deck := g.deck, actions := g.actions) == g
      && CountFlipped(h.deck) == CountFlipped(g.deck) + 1 <= 2
  {
    var c := g.deck[cardIndex].(status := Flipped);
    CountFlippedUpdate(g.deck, cardIndex, c);
  }

  /** `matchCards` fails unless exactly two cards are FLIPPED. */
  lemma MatchFailures(entry: Option<Game>, now: int)
    ensures entry.None? ==> MatchOutcome(entry, now) == Err(GameNotFound)
    ensures entry.Some? && entry.value.status != InProgress ==>
      MatchOutcome(entry, now) == Err(NotInProgress)
    ensures MatchOutcome(entry, now).Ok? <==>
      entry.Some? && entry.value.status == InProgress && CountFlipped(entry.value.deck) == 2
    ensures entry.Some? && entry.value.status == InProgress && CountFlipped(entry.value.deck) != 2 ==>
      MatchOutcome(entry, now) == Err(NeedTwoFlipped)
  {
  }

  /** The cards and log after a successful match: only the two FLIPPED cards change. */
  lemma MatchResolves(g: Game, now: int)
    requires MatchOutcome(Some(g), now).Ok?
    ensures var h := MatchOutcome(Some(g), now).value;
      var ps := FlippedPositions(g.deck);
      && |ps| == 2 && ps[0] < ps[1] < |g.deck| == |h.deck|
      && g.deck[ps[0]].status == Flipped && g.deck[ps[1]].status == Flipped
      && (forall j :: 0 <= j < |g.deck| && j != ps[0] && j != ps[1] ==> h.deck[j] == g.deck[j])
      && (g.deck[ps[0]].value == g.deck[ps[1]].value ==>
            && h.deck[ps[0]] == g.deck[ps[0]].(status := Found)
            && h.deck[ps[1]] == g.deck[ps[1]].(status := Found)
            && h.actions == g.actions + [MatchEntry(now, g.deck[ps[0]], g.deck[ps[1]])])
      && (g.deck[ps[0]].value != g.deck[ps[1]].value ==>
            && h.deck[ps[0]] == g.deck[ps[0]].(status := Hidden)
            && h.deck[ps[1]] == g.deck[ps[1]].(status := Hidden)
            && h.actions == g.actions)
  {
  }

  /** After a successful match no card is FLIPPED. */
  lemma MatchClearsFlipped(g: Game, now: int)
    requires MatchOutcome(Some(g), now).Ok?
    ensures CountFlipped(MatchOutcome(Some(g), now).value.deck) == 0
  {
    MatchResolves(g, now);
    var ps := FlippedPositions(g.deck);
    var h := MatchOutcome(Some(g), now).value;
    forall i | 0 <= i < |h.deck|
      ensures h.deck[i].status != Flipped
    {
      if g.deck[i].status == Flipped {
        assert i in ps;
      }
    }
    NoneFlipped(h.deck);
  }

  /**
   * A successful match resolves the two FLIPPED cards (`p` before `q` in deck
   * order): equal values make both FOUND and append one MATCH entry with their
   * `index` fields; unequal values make both HIDDEN and log nothing. No card is
   * FLIPPED afterwards, and the game is COMPLETED exactly when all cards are FOUND.
   */
  lemma MatchEffect(g: Game, now: int)
    requires MatchOutcome(Some(g), now).Ok?
    ensures var h := MatchOutcome(Some(g), now).value;
      var ps := FlippedPositions(g.deck);
      && |ps| == 2 && ps[0] < ps[1] < |g.deck| == |h.deck|
      && g.deck[ps[0]].status == Flipped && g.deck[ps[1]].status == Flipped
      && (forall j :: 0 <= j < |g.deck| && j != ps[0] && j != ps[1] ==> h.deck[j] == g.deck[j])
      && (g.deck[ps[0]].value == g.deck[ps[1]].value ==>
            && h.deck[ps[0]] == g.deck[ps[0]].(status := Found)
            && h.deck[ps[1]] == g.deck[ps[1]].(status := Found)
            && h.actions == g.actions + [MatchEntry(now, g.deck[ps[0]], g.deck[ps[1]])])
      && (g.deck[ps[0]].value != g.deck[ps[1]].value ==>
            && h.deck[ps[0]] == g.deck[ps[0]].(status := Hidden)
            && h.deck[ps[1]] == g.deck[ps[1]].(status := Hidden)
            && h.actions == g.actions)
      && (h.status == Completed <==> AllFound(h.deck))
      && (h.status == InProgress <==> !AllFound(h.deck))
      && h.(deck := g.deck, actions := g.actions, status := g.status) == g
      && CountFlipped(h.deck) == 0
  {
    MatchResolves(g, now);
    MatchClearsFlipped(g, now);
  }

  /** The invariants every transition keeps: at most two FLIPPED cards, and COMPLETED exactly when all are FOUND. */
  ghost predicate Consistent(g: Game)
  {
    && CountFlipped(g.deck) <= 2
    && (g.status == Completed <==> AllFound(g.deck))
  }

  /** One client command against a game. */
  datatype Command = FlipCommand(cardIndex: int, now: int) | MatchCommand(now: int)

  function Step(g: Game, c: Command): Result<Game>
  {
    match c
    case FlipCommand(cardIndex, now) => FlipOutcome(Some(g), cardIndex, now)
    case MatchCommand(now) => MatchOutcome(Some(g), now)
  }

  /** The game after a command: a failed command leaves it unchanged. */
  function Apply(g: Game, c: Command): Game
  {
    var r := Step(g, c);
    if r.Ok? then r.value else g
  }

  function Run(g: Game, cs: seq<Command>): Game
    decreases cs
  {
    if cs == [] then g else Run(Apply(g, cs[0]), cs[1..])
  }

  /**
   * Every successful command, whatever the game it started from, leaves at
   * most two cards FLIPPED and the game COMPLETED exactly when all cards are
   * FOUND: a flip leaves a FLIPPED card in a game still in progress, and a
   * match completes the game once every card is FOUND.
   */
  lemma StepKeepsConsistent(g: Game, c: Command)
    requires Step(g, c).Ok?
    ensures Consistent(Step(g, c).value)
  {
    match c
    case FlipCommand(cardIndex, now) => FlipKeepsConsistent(g, cardIndex, now);
    case MatchCommand(now) => MatchKeepsConsistent(g, now);
  }

  /** A successful flip leaves at most two cards FLIPPED, one of them the flipped card, in a game still in progress. */
  lemma FlipKeepsConsistent(g: Game, cardIndex: int, now: int)
    requires FlipOutcome(Some(g), cardIndex, now).Ok?
    ensures Consistent(FlipOutcome(Some(g), cardIndex, now).value)
  {
    FlipEffect(g, cardIndex, now);
    var h := FlipOutcome(Some(g), cardIndex, now).value;
    assert h.deck[cardIndex].status == Flipped;
  }

  /** A successful match leaves no card FLIPPED and completes the game exactly when all cards are FOUND. */
  lemma MatchKeepsConsistent(g: Game, now: int)
    requires MatchOutcome(Some(g), now).Ok?
    ensures Consistent(MatchOutcome(Some(g), now).value)
  {
    MatchEffect(g, now);
  }

  /** Any sequence of flips and matches keeps the invariants. */
  lemma {:induction false} RunKeepsConsistent(g: Game, cs: seq<Command>)
    requires Consistent(g)
    ensures Consistent(Run(g, cs))
    decreases cs
  {
    if cs != [] {
      if Step(g, cs[0]).Ok? {
        StepKeepsConsistent(g, cs[0]);
      }
      RunKeepsConsistent(Apply(g, cs[0]), cs[1..]);
    }
  }

  /** A completed game rejects every flip and match with "Game is not in progress" and never changes again. */
  lemma {:induction false} CompletedIsFinal(g: Game, cs: seq<Command>)
    requires g.status == Completed
    ensures forall c :: Step(g, c) == Err(NotInProgress)
    ensures Run(g, cs) == g
  {
    if cs != [] {
      assert Apply(g, cs[0]) == g;
      CompletedIsFinal(g, cs[1..]);
    }
  }

  /** The moves a single card may make in one step: HIDDEN to FLIPPED, FLIPPED to FOUND or back to HIDDEN. */
  predicate CardMove(before: CardStatus, after: CardStatus)
  {
    || before == after
    || (before == Hidden && after == Flipped)
    || (before == Flipped && after == Found)
    || (before == Flipped && after == Hidden)
  }

  /**
   * What any later state of a game shares with an earlier one: the same
   * identity fields, the same deck length, every card's `index` and `value`,
   * FOUND cards stay FOUND, the action log only grows at its end, and a
   * COMPLETED game stays COMPLETED.
   */
  ghost predicate Evolves(a: Game, b: Game)
  {
    && b.id == a.id && b.userId == a.userId
    && b.createdAt == a.createdAt && b.updatedAt == a.updatedAt
    && |b.deck| == |a.deck|
    && (forall i :: 0 <= i < |a.deck| ==>
          && b.deck[i].index == a.deck[i].index
          && b.deck[i].value == a.deck[i].value
          && (a.deck[i].status == Found ==> b.deck[i].status == Found))
    && |a.actions| <= |b.actions| && b.actions[..|a.actions|] == a.actions
    && (a.status == Completed ==> b.status == Completed)
  }

  /** A successful flip moves one card from HIDDEN to FLIPPED and evolves the game. */
  lemma FlipEvolves(g: Game, cardIndex: int, now: int)
    requires FlipOutcome(Some(g), cardIndex, now).Ok?
    ensures var h := FlipOutcome(Some(g), cardIndex, now).value;
      && (forall i :: 0 <= i < |g.deck| ==> CardMove(g.deck[i].status, h.deck[i].status))
      && Evolves(g, h)
  {
    FlipEffect(g, cardIndex, now);
    var h := FlipOutcome(Some(g), cardIndex, now).value;
    assert h.actions[..|g.actions|] == g.actions;
  }

  /** A successful match moves two cards out of FLIPPED and evolves the game. */
  lemma MatchEvolves(g: Game, now: int)
    requires MatchOutcome(Some(g), now).Ok?
    ensures var h := MatchOutcome(Some(g), now).value;
      && (forall i :: 0 <= i < |g.deck| ==> CardMove(g.deck[i].status, h.deck[i].status))
      && Evolves(g, h)
  {
    MatchEffect(g, now);
    var h := MatchOutcome(Some(g), now).value;
    assert h.actions[..|g.actions|] == g.actions;
  }

  /** One command moves each card along its lifecycle and evolves the game. */
  lemma ApplyEvolves(g: Game, c: Command)
    ensures forall i :: 0 <= i < |g.deck| ==> CardMove(g.deck[i].status, Apply(g, c).deck[i].status)
    ensures Evolves(g, Apply(g, c))
  {
    if Step(g, c).Ok? {
      match c
      case FlipCommand(cardIndex, now) => FlipEvolves(g, cardIndex, now);
      case MatchCommand(now) => MatchEvolves(g, now);
    }
  }

  /** Any sequence of commands evolves the game it starts from. */
  lemma {:induction false} RunEvolves(g: Game, cs: seq<Command>)
    ensures Evolves(g, Run(g, cs))
    decreases cs
  {
    if cs != [] {
      var h := Apply(g, cs[0]);
      ApplyEvolves(g, cs[0]);
      RunEvolves(h, cs[1..]);
      var r := Run(h, cs[1..]);
      assert r.actions[..|g.actions|] == r.actions[..|h.actions|][..|g.actions|];
    }
  }

  lemma RunThree(g: Game, c1: Command, c2: Command, c3: Command)
    ensures Run(g, [c1, c2, c3]) == Apply(Apply(Apply(g, c1), c2), c3)
  {
    var g1 := Apply(g, c1);
    var g2 := Apply(g1, c2);
    assert [c1, c2, c3][1..] == [c2, c3];
    assert [c2, c3][1..] == [c3];
    assert [c3][1..] == [];
    assert Run(g2, [c3]) == Run(Apply(g2, c3), []);
  }

  /** A strictly increasing sequence that holds `i` and `j` and nothing else is `[i, j]`. */
  lemma SortedPair(ps: seq<nat>, i: nat, j: nat)
    requires i < j && i in ps && j in ps
    requires forall k :: 0 <= k < |ps| ==> ps[k] == i || ps[k] == j
    requires forall k, l :: 0 <= k < l < |ps| ==> ps[k] < ps[l]
    ensures ps == [i, j]
  {
    assert ps[0] == i by {
      var m :| 0 <= m < |ps| && ps[m] == i;
      assert ps[0] <= ps[m];
    }
    assert 2 <= |ps| && ps[1] == j by {
      var n :| 0 <= n < |ps| && ps[n] == j;
      assert 1 <= n;
      assert ps[1] <= ps[n];
    }
    assert ps[1] <= ps[|ps| - 1];
  }

  /** Turning two cards of a deck with no FLIPPED card to FLIPPED makes them the only FLIPPED positions. */
  lemma FlippedPair(deck: seq<Card>, i: nat, j: nat)
    requires CountFlipped(deck) == 0 && i < j < |deck|
    ensures FlippedPositions(deck[i := deck[i].(status := Flipped)][j := deck[j].(status := Flipped)]) == [i, j]
  {
    var d := deck[i := deck[i].(status := Flipped)][j := deck[j].(status := Flipped)];
    var ps := FlippedPositions(d);
    forall k | 0 <= k < |d| && k != i && k != j
      ensures d[k].status != Flipped
    {
      assert d[k] == deck[k];
    }
    forall k | 0 <= k < |ps|
      ensures ps[k] == i || ps[k] == j
    {
      assert d[ps[k]].status == Flipped;
    }
    SortedPair(ps, i, j);
  }

  /** Flipping two HIDDEN cards of a game with no FLIPPED card leaves exactly those two FLIPPED. */
  lemma FlipTwo(g: Game, i: nat, j: nat, t1: int, t2: int)
    requires g.status == InProgress && CountFlipped(g.deck) == 0
    requires i < j < |g.deck| && g.deck[i].status == Hidden && g.deck[j].status == Hidden
    ensures var h := Apply(Apply(g, FlipCommand(i, t1)), FlipCommand(j, t2));
      && h == g.(deck := g.deck[i := g.deck[i].(status := Flipped)][j := g.deck[j].(status := Flipped)],
                 actions := g.actions + [FlipEntry(t1, i), FlipEntry(t2, j)])
      && FlippedPositions(h.deck) == [i, j]
  {
    FlipEffect(g, i, t1);
    var g1 := Apply(g, FlipCommand(i, t1));
    FlipEffect(g1, j, t2);
    var h := Apply(g1, FlipCommand(j, t2));
    assert h.deck == g.deck[i := g.deck[i].(status := Flipped)][j := g.deck[j].(status := Flipped)];
    assert h.actions == g.actions + [FlipEntry(t1, i), FlipEntry(t2, j)];
    FlippedPair(g.deck, i, j);
  }

  /** Matching a game whose FLIPPED cards are exactly `i` and `j`: equal values are FOUND, unequal ones HIDDEN again. */
  lemma MatchPair(g: Game, i: nat, j: nat, now: int)
    requires g.status == InProgress && i < j < |g.deck| && FlippedPositions(g.deck) == [i, j]
    ensures g.deck[i].value == g.deck[j].value ==>
      var deck := g.deck[i := g.deck[i].(status := Found)][j := g.deck[j].(status := Found)];
      MatchOutcome(Some(g), now) == Ok(g.(deck := deck,
        actions := g.actions + [MatchEntry(now, g.deck[i], g.deck[j])],
        status := if AllFound(deck) then Completed else InProgress))
    ensures g.deck[i].value != g.deck[j].value ==>
      var deck := g.deck[i := g.deck[i].(status := Hidden)][j := g.deck[j].(status := Hidden)];
      MatchOutcome(Some(g), now) == Ok(g.(deck := deck, status := if AllFound(deck) then Completed else InProgress))
  {
  }

  /** Writing two positions of a sequence twice keeps the second writes only; writing back the old values restores it. */
  lemma OverwriteTwo<T>(d: seq<T>, i: nat, j: nat, x: T, y: T, a: T, b: T)
    requires i < j < |d|
    ensures d[i := x][j := y][i := a][j := b] == d[i := a][j := b]
    ensures d[i := x][j := y][i := d[i]][j := d[j]] == d
  {
  }

  /**
   * One turn on a pair of equal values, from a game with no FLIPPED card: flip
   * both and ask for a match. Both cards end FOUND, the log gains two FLIP
   * entries and one MATCH entry, and the game is COMPLETED exactly when every
   * card is now FOUND.
   */
  lemma PlayMatchingTurn(g: Game, i: nat, j: nat, t1: int, t2: int, t3: int)
    requires g.status == InProgress && CountFlipped(g.deck) == 0
    requires i < j < |g.deck| && g.deck[i].status == Hidden && g.deck[j].status == Hidden
    requires g.deck[i].value == g.deck[j].value
    ensures var h := Run(g, [FlipCommand(i, t1), FlipCommand(j, t2), MatchCommand(t3)]);
      && h.deck == g.deck[i := g.deck[i].(status := Found)][j := g.deck[j].(status := Found)]
      && h.actions == g.actions + [FlipEntry(t1, i), FlipEntry(t2, j), MatchEntry(t3, g.deck[i], g.deck[j])]
      && (h.status == Completed <==> AllFound(h.deck))
      && h.(deck := g.deck, actions := g.actions, status := g.status) == g
  {
    RunThree(g, FlipCommand(i, t1), FlipCommand(j, t2), MatchCommand(t3));
    FlipTwo(g, i, j, t1, t2);
    var g2 := Apply(Apply(g, FlipCommand(i, t1)), FlipCommand(j, t2));
    MatchPair(g2, i, j, t3);
    var fi, fj := g.deck[i].(status := Flipped), g.deck[j].(status := Flipped);
    assert g2.deck[i] == fi && g2.deck[j] == fj;
    OverwriteTwo(g.deck, i, j, fi, fj, g.deck[i].(status := Found), g.deck[j].(status := Found));
    assert g2.actions + [MatchEntry(t3, g2.deck[i], g2.deck[j])]
        == g.actions + [FlipEntry(t1, i), FlipEntry(t2, j), MatchEntry(t3, g.deck[i], g.deck[j])];
  }

  /**
   * One turn on two different values: both cards go back to HIDDEN, so the
   * deck is as before, the log keeps only the two FLIP entries, and the game
   * stays IN_PROGRESS.
   */
  lemma PlayMissingTurn(g: Game, i: nat, j: nat, t1: int, t2: int, t3: int)
    requires g.status == InProgress && CountFlipped(g.deck) == 0
    requires i < j < |g.deck| && g.deck[i].status == Hidden && g.deck[j].status == Hidden
    requires g.deck[i].value != g.deck[j].value
    ensures Run(g, [FlipCommand(i, t1), FlipCommand(j, t2), MatchCommand(t3)])
         == g.(actions := g.actions + [FlipEntry(t1, i), FlipEntry(t2, j)])
  {
    RunThree(g, FlipCommand(i, t1), FlipCommand(j, t2), MatchCommand(t3));
    FlipTwo(g, i, j, t1, t2);
    var g2 := Apply(Apply(g, FlipCommand(i, t1)), FlipCommand(j, t2));
    MatchPair(g2, i, j, t3);
    var fi, fj := g.deck[i].(status := Flipped), g.deck[j].(status := Flipped);
    assert g2.deck[i] == fi && g2.deck[j] == fj;
    OverwriteTwo(g.deck, i, j, fi, fj, fi, fj);
    assert !AllFound(g.deck) by { assert g.deck[i].status == Hidden; }
  }

  /** The deck a, a, b, b, all HIDDEN, with `index` equal to the deck position. */
  function PairDeck(a: string, b: string): seq<Card>
  {
    [Card(0, a, Hidden), Card(1, a, Hidden), Card(2, b, Hidden), Card(3, b, Hidden)]
  }

  /**
   * Matching the last pair completes the game: when every other card is
   * FOUND, a turn on two HIDDEN cards of equal value leaves the game COMPLETED
   * with every card FOUND, and no later flip is accepted.
   */
  lemma LastPairCompletes(g: Game, i: nat, j: nat, t1: int, t2: int, t3: int)
    requires g.status == InProgress
    requires i < j < |g.deck| && g.deck[i].status == Hidden && g.deck[j].status == Hidden
    requires g.deck[i].value == g.deck[j].value
    requires forall k :: 0 <= k < |g.deck| && k != i && k != j ==> g.deck[k].status == Found
    ensures var h := Run(g, [FlipCommand(i, t1), FlipCommand(j, t2), MatchCommand(t3)]);
      && h.status == Completed
      && AllFound(h.deck)
      && forall c :: Step(h, c) == Err(NotInProgress)
  {
    NoneFlipped(g.deck);
    PlayMatchingTurn(g, i, j, t1, t2, t3);
    var h := Run(g, [FlipCommand(i, t1), FlipCommand(j, t2), MatchCommand(t3)]);
    assert AllFound(h.deck);
    CompletedIsFinal(h, []);
  }

  /**
   * A third flip while two cards are FLIPPED is refused, not resolved: after
   * flipping A and B, flipping the other A fails with "Already 2 cards flipped".
   */
  lemma ScenarioThirdFlipRefused(g: Game, a: string, b: string)
    requires g.status == InProgress && g.deck == PairDeck(a, b)
    ensures var h := Run(g, [FlipCommand(0, 1), FlipCommand(2, 2)]);
      Step(h, FlipCommand(1, 3)) == Err(AlreadyTwoFlipped)
  {
    var g2 := Apply(Apply(g, FlipCommand(0, 1)), FlipCommand(2, 2));
    assert g2.status == InProgress && 1 < |g2.deck| && g2.deck[1].status == Hidden
        && CountFlipped(g2.deck) == 2 by {
      NoneFlipped(g.deck);
      FlipTwo(g, 0, 2, 1, 2);
    }
    assert Run(g, [FlipCommand(0, 1), FlipCommand(2, 2)]) == g2 by {
      assert [FlipCommand(0, 1), FlipCommand(2, 2)][1..] == [FlipCommand(2, 2)];
      assert [FlipCommand(2, 2)][1..] == [];
    }
    FlipFailures(Some(g2), 1, 3);
  }

  /**
   * A mismatch returns both cards to HIDDEN and logs nothing for the match:
   * the two FLIP entries are the only trace of the attempt.
   */
  lemma ScenarioMismatch(g: Game, a: string, b: string)
    requires g.status == InProgress && g.deck == PairDeck(a, b) && a != b
    ensures var h := Run(g, [FlipCommand(0, 1), FlipCommand(2, 2), MatchCommand(3)]);
      && h.deck == PairDeck(a, b)
      && h.status == InProgress
      && h.actions == g.actions + [FlipEntry(1, 0), FlipEntry(2, 2)]
  {
    NoneFlipped(g.deck);
    PlayMissingTurn(g, 0, 2, 1, 2, 3);
  }
}
