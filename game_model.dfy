/**
 * The game record of the memory-matching server (src/models/Game.model.ts):
 * the card, action and game shapes, their enumerations, and the redacted
 * projection that is sent to clients.
 *
 * Identifiers (`ObjectId`) and dates are opaque values here: the projection
 * only passes them through.
 */
module GameModel {

  datatype Option<T> = None | Some(value: T)

  /** A card is dealt HIDDEN, becomes FLIPPED when revealed and FOUND once matched. */
  datatype CardStatus = Hidden | Flipped | Found

  datatype Card = Card(index: int, value: string, status: CardStatus)

  datatype GameActionType = Flip | Match | Start | End

  /** One entry of the append-only action log; the two optional fields are absent when not set. */
  datatype GameAction = GameAction(
    action: GameActionType,
    timestamp: int,
    cardIndex: Option<int>,
    matchedCardIndex: Option<seq<int>>)

  datatype GameStatus = InProgress | Completed

  /** A database object identifier, shown to clients through its hexadecimal string. */
  datatype ObjectId = ObjectId(hex: string) {
    function ToString(): string { hex }
  }

  /** A date, kept as the milliseconds since the epoch it stands for. */
  datatype Date = Date(epochMillis: int)

  datatype Game = Game(
    id: ObjectId,
    userId: ObjectId,
    deck: seq<Card>,
    actions: seq<GameAction>,
    status: GameStatus,
    createdAt: Date,
    updatedAt: Date)

  /** A card as a client sees it: `value` is absent unless the card has been revealed. */
  datatype SafeCard = SafeCard(index: int, value: Option<string>, status: CardStatus)

  datatype SafeGame = SafeGame(
    id: string,
    userId: string,
    cards: seq<SafeCard>,
    tries: int,
    createdAt: Date,
    updatedAt: Date)

  /** The number of FLIP entries in an action log. */
  function FlipCount(actions: seq<GameAction>): (n: nat)
    ensures n <= |actions|
  {
    if actions == [] then 0
    else (if actions[0].action == Flip then 1 else 0) + FlipCount(actions[1..])
  }

  /** The number of FLIP entries of a concatenated log is the sum over its parts. */
  lemma {:induction false} FlipCountAppend(a: seq<GameAction>, b: seq<GameAction>)
    ensures FlipCount(a + b) == FlipCount(a) + FlipCount(b)
  {
    if a == [] {
      assert a + b == b;
    } else {
      assert (a + b)[0] == a[0];
      assert (a + b)[1..] == a[1..] + b;
      FlipCountAppend(a[1..], b);
    }
  }

  /** Appending a FLIP adds one to the count; MATCH, START and END entries do not count. */
  lemma FlipCountPush(actions: seq<GameAction>, a: GameAction)
    ensures FlipCount(actions + [a]) == FlipCount(actions) + (if a.action == Flip then 1 else 0)
  {
    FlipCountAppend(actions, [a]);
    assert [a][1..] == [];
  }

  /** A card's client view: the value is kept only for FOUND and FLIPPED cards. */
  function ToSafeCard(c: Card): (s: SafeCard)
    ensures s.index == c.index && s.status == c.status
    ensures s.value.Some? <==> c.status != Hidden
    ensures s.value.Some? ==> s.value.value == c.value
  {
    SafeCard(
      c.index,
      if c.status == Found || c.status == Flipped then Some(c.value) else None,
      c.status)
  }

  /** The client projection of a game; the game itself is a value and is left as it was. */
  function ToSafeGame(g: Game): (r: SafeGame)
    ensures r.id == g.id.hex && r.userId == g.userId.hex
    ensures r.createdAt == g.createdAt && r.updatedAt == g.updatedAt
    ensures |r.cards| == |g.deck|
    ensures forall i :: 0 <= i < |g.deck| ==>
      r.cards[i].index == g.deck[i].index && r.cards[i].status == g.deck[i].status
    ensures forall i :: 0 <= i < |g.deck| ==>
      (r.cards[i].value.Some? <==> g.deck[i].status != Hidden)
    ensures forall i :: 0 <= i < |g.deck| && r.cards[i].value.Some? ==>
      r.cards[i].value.value == g.deck[i].value
    ensures 0 <= 2 * r.tries <= FlipCount(g.actions) < 2 * r.tries + 2
  {
    SafeGame(
      g.id.ToString(),
      g.userId.ToString(),
      seq(|g.deck|, i requires 0 <= i < |g.deck| => ToSafeCard(g.deck[i])),
      FlipCount(g.actions) / 2,
      g.createdAt,
      g.updatedAt)
  }

  /** `tries` grows by one on every second FLIP and not at all on other actions. */
  lemma TriesAfterAction(g: Game, a: GameAction)
    ensures ToSafeGame(g.(actions := g.actions + [a])).tries ==
      if a.action == Flip then (FlipCount(g.actions) + 1) / 2 else ToSafeGame(g).tries
  {
    FlipCountPush(g.actions, a);
  }
}
