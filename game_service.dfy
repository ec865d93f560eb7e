/**
 * The session engine of src/services/Game.service.ts: the in-memory cache of
 * active games with its ten-minute idle eviction, the flip and match
 * operations run against cached entries, and the projection the service
 * sends to clients.
 *
 * Timers become a per-entry deadline and an explicit `Expire` call; the
 * clock is the `now` parameter (milliseconds). The database collection is
 * the ghost map `store`: the model records what is written to it, while
 * what is read from it arrives as a parameter.
 */
module GameService {
  import opened GameModel
  import opened GameRules

  /** The idle time after which a cached game is persisted and dropped: ten minutes, in milliseconds. */
  const IdleTimeoutMs := 10 * 60 * 1000

  /** The service's own client view: no `updatedAt`, but the game status, and `tries` not rounded. */
  datatype ServiceSafeGame = ServiceSafeGame(
    id: string,
    userId: string,
    cards: seq<SafeCard>,
    tries: real,
    createdAt: Date,
    status: GameStatus)

  /** A card's client view in the service: the value is withheld exactly when the card is HIDDEN. */
  function ToServiceSafeCard(c: Card): (s: SafeCard)
    ensures s.index == c.index && s.status == c.status
    ensures s.value.None? <==> c.status == Hidden
    ensures s.value.Some? ==> s.value.value == c.value
  {
    SafeCard(c.index, if c.status == Hidden then None else Some(c.value), c.status)
  }

  /** The service's projection: cards in deck order with HIDDEN values withheld, and half the FLIP count as `tries`. */
  function ToServiceSafeGame(g: Game): (r: ServiceSafeGame)
    ensures r.id == g.id.hex && r.userId == g.userId.hex
    ensures r.createdAt == g.createdAt && r.status == g.status
    ensures |r.cards| == |g.deck|
    ensures forall i :: 0 <= i < |g.deck| ==>
      r.cards[i].index == g.deck[i].index && r.cards[i].status == g.deck[i].status
    ensures forall i :: 0 <= i < |g.deck| ==>
      r.cards[i].value == (if g.deck[i].status == Hidden then None else Some(g.deck[i].value))
    ensures 2.0 * r.tries == FlipCount(g.actions) as real
  {
    ServiceSafeGame(
      g.id.ToString(),
      g.userId.ToString(),
      seq(|g.deck|, i requires 0 <= i < |g.deck| => ToServiceSafeCard(g.deck[i])),
      FlipCount(g.actions) as real / 2.0,
      g.createdAt,
      g.status)
  }

  /**
   * The two projections show the same cards, because a card whose status is
   * neither FOUND nor FLIPPED is HIDDEN; the model's `tries` is the service's
   * rounded down, and the two agree whenever the FLIP count is even.
   */
  lemma ProjectionsAgree(g: Game)
    ensures ToServiceSafeGame(g).cards == GameModel.ToSafeGame(g).cards
    ensures GameModel.ToSafeGame(g).tries == ToServiceSafeGame(g).tries.Floor
    ensures FlipCount(g.actions) % 2 == 0 <==> GameModel.ToSafeGame(g).tries as real == ToServiceSafeGame(g).tries
  {
  }

  /**
   * The process-wide cache of active games (`GameSocketService.games`).
   * Every cached entry carries the deadline at which its idle timer fires.
   */
  class GameSocketService {
    var games: map<string, Game>
    var deadlines: map<string, int>
    /** The database collection, by game id, as far as the cache writes to it. */
    ghost var store: map<string, Game>

    /** Every cached game has exactly one pending idle timer. */
    ghost predicate Valid()
      reads this
    {
      deadlines.Keys == games.Keys
    }

    /** An empty cache in front of a database holding `persisted`. */
    constructor (ghost persisted: map<string, Game>)
      ensures Valid()
      ensures games == map[] && deadlines == map[] && store == persisted
    {
      games := map[];
      deadlines := map[];
      store := persisted;
    }

    /** `getGame`: the cached entry, without any owner check. */
    function GetGame(id: string): (r: Option<Game>)
      reads this
      ensures r.Some? <==> id in games
      ensures r.Some? ==> r.value == games[id]
    {
      if id in games then Some(games[id]) else None
    }

    /**
     * `getAllGames`: the game of every cache entry, each entry exactly once;
     * `ids` names the entry each listed game comes from. The order of the
     * listing is not modelled.
     */
    method GetAllGames() returns (all: seq<Game>, ghost ids: seq<string>)
      ensures |all| == |ids| == |games|
      ensures forall k, l :: 0 <= k < l < |ids| ==> ids[k] != ids[l]
      ensures forall id :: id in games <==> id in ids
      ensures forall k :: 0 <= k < |all| ==> ids[k] in games && all[k] == games[ids[k]]
    {
      all, ids := [], [];
      var pending := games.Keys;
      while pending != {}
        invariant pending <= games.Keys
        invariant |all| == |ids| && |ids| + |pending| == |games|
        invariant forall k, l :: 0 <= k < l < |ids| ==> ids[k] != ids[l]
        invariant forall id :: id in ids <==> id in games && id !in pending
        invariant forall k :: 0 <= k < |all| ==> ids[k] in games && all[k] == games[ids[k]]
        decreases |pending|
      {
        var id :| id in pending;
        all, ids := all + [games[id]], ids + [id];
        pending := pending - {id};
      }
    }

    /** `setGame`: replace the entry and re-arm its idle timer, cancelling the previous one. */
    method SetGame(id: string, game: Game, now: int)
      requires Valid()
      modifies this`games, this`deadlines
      ensures Valid()
      ensures games == old(games)[id := game]
      ensures deadlines == old(deadlines)[id := now + IdleTimeoutMs]
    {
      games := games[id := game];
      deadlines := deadlines[id := now + IdleTimeoutMs];
    }

    /** `updateGame`: the public form of `setGame`. */
    method UpdateGame(id: string, game: Game, now: int)
      requires Valid()
      modifies this`games, this`deadlines
      ensures Valid()
      ensures games == old(games)[id := game]
      ensures deadlines == old(deadlines)[id := now + IdleTimeoutMs]
    {
      SetGame(id, game, now);
    }

    /**
     * `createGame`: `created` is the record the database returned for the
     * insert, carrying its new id; it is stored and cached under that id.
     */
    method CreateGame(created: Game, now: int) returns (obj: Game)
      requires Valid()
      modifies this
      ensures Valid()
      ensures obj == created
      ensures store == old(store)[created.id.ToString() := created]
      ensures games == old(games)[created.id.ToString() := created]
      ensures deadlines == old(deadlines)[created.id.ToString() := now + IdleTimeoutMs]
    {
      store := store[created.id.ToString() := created];
      SetGame(created.id.ToString(), created, now);
      obj := created;
    }

    /**
     * `loadGame`: `found` is the database's answer to the lookup by id. A
     * missing record leaves the cache alone; a found one is cached.
     */
    method LoadGame(id: string, found: Option<Game>, now: int) returns (r: Option<Game>)
      requires Valid()
      requires found == if id in store then Some(store[id]) else None
      modifies this`games, this`deadlines
      ensures Valid()
      ensures r == found
      ensures r.None? ==> games == old(games) && deadlines == old(deadlines)
      ensures r.Some? ==> games == old(games)[id := r.value]
      ensures r.Some? ==> deadlines == old(deadlines)[id := now + IdleTimeoutMs]
    {
      if found.None? {
        return None;
      }
      SetGame(id, found.value, now);
      r := found;
    }

    /**
     * `persistGame`: write the cached entry over the database record with
     * the same id; nothing happens when the id is not cached, and an update
     * by id creates no record that is not already there.
     */
    method PersistGame(id: string)
      modifies this`store
      ensures store == if id in games && id in old(store) then old(store)[id := games[id]] else old(store)
    {
      if id in games {
        store := if id in store then store[id := games[id]] else store;
      }
    }

    /**
     * The idle timer of `id` firing at time `now`: once the entry's deadline
     * has passed, the entry is persisted and removed; otherwise nothing happens.
     * No other entry is touched.
     */
    method Expire(id: string, now: int) returns (expired: bool)
      requires Valid()
      modifies this
      ensures Valid()
      ensures expired <==> id in old(deadlines) && old(deadlines)[id] <= now
      ensures expired ==> games == old(games) - {id} && deadlines == old(deadlines) - {id}
      ensures expired ==> store == if id in old(store) then old(store)[id := old(games)[id]] else old(store)
      ensures !expired ==> games == old(games) && deadlines == old(deadlines) && store == old(store)
    {
      expired := id in deadlines && deadlines[id] <= now;
      if expired {
        PersistGame(id);
        games := games - {id};
        deadlines := deadlines - {id};
      }
    }

    /** `getSafeGame`: the service projection of the cached entry, or "Game not found". */
    method GetSafeGame(id: string) returns (r: Result<ServiceSafeGame>)
      ensures r.Ok? <==> id in games
      ensures r.Err? ==> r.message == GameNotFound
      ensures r.Ok? ==> r.value == ToServiceSafeGame(games[id])
      ensures r.Ok? ==> forall i :: 0 <= i < |games[id].deck| && games[id].deck[i].status == Hidden ==>
        r.value.cards[i].value == None
    {
      var game := GetGame(id);
      if game.None? {
        return Err(GameNotFound);
      }
      r := Ok(ToServiceSafeGame(game.value));
    }

    /**
     * `flipCard`: run the flip against the cached entry. A failure changes
     * nothing; a success writes the flipped game back, re-arming its timer.
     */
    method FlipCard(gameId: string, cardIndex: int, now: int) returns (r: Result<Game>)
      requires Valid()
      modifies this`games, this`deadlines
      ensures Valid()
      ensures r == FlipOutcome(old(GetGame(gameId)), cardIndex, now)
      ensures r.Err? ==> games == old(games) && deadlines == old(deadlines)
      ensures r.Ok? ==> games == old(games)[gameId := r.value]
      ensures r.Ok? ==> deadlines == old(deadlines)[gameId := now + IdleTimeoutMs]
    {
      var entry := GetGame(gameId);
      if entry.None? {
        return Err(GameNotFound);
      }
      var game := entry.value;
      if game.status != InProgress {
        return Err(NotInProgress);
      }
      if !(0 <= cardIndex < |game.deck|) {
        return Err(InvalidCardIndex);
      }
      var card := game.deck[cardIndex];
      if card.status != Hidden {
        return Err(AlreadyRevealed);
      }
      var flipped := FlippedPositions(game.deck);
      if |flipped| >= 2 {
        return Err(AlreadyTwoFlipped);
      }
      card := card.(status := Flipped);
      game := game.(deck := game.deck[cardIndex := card]);
      game := game.(actions := game.actions + [FlipEntry(now, cardIndex)]);
      UpdateGame(gameId, game, now);
      r := Ok(game);
    }

    /**
     * `matchCards`: resolve the two FLIPPED cards of the cached entry. A
     * failure changes nothing; a success writes the game back, re-arming its timer.
     */
    method MatchCards(gameId: string, now: int) returns (r: Result<Game>)
      requires Valid()
      modifies this`games, this`deadlines
      ensures Valid()
      ensures r == MatchOutcome(old(GetGame(gameId)), now)
      ensures r.Err? ==> games == old(games) && deadlines == old(deadlines)
      ensures r.Ok? ==> games == old(games)[gameId := r.value]
      ensures r.Ok? ==> deadlines == old(deadlines)[gameId := now + IdleTimeoutMs]
    {
      var entry := GetGame(gameId);
      if entry.None? {
        return Err(GameNotFound);
      }
      var game := entry.value;
      if game.status != InProgress {
        return Err(NotInProgress);
      }
      var flipped := FlippedPositions(game.deck);
      if |flipped| != 2 {
        return Err(NeedTwoFlipped);
      }
      var first, second := game.deck[flipped[0]], game.deck[flipped[1]];
      if first.value == second.value {
        game := game.(deck := game.deck[flipped[0] := first.(status := Found)]);
        game := game.(deck := game.deck[flipped[1] := second.(status := Found)]);
        game := game.(actions := game.actions + [MatchEntry(now, first, second)]);
      } else {
        game := game.(deck := game.deck[flipped[0] := first.(status := Hidden)]);
        game := game.(deck := game.deck[flipped[1] := second.(status := Hidden)]);
      }
      if AllFound(game.deck) {
        game := game.(status := Completed);
      }
      UpdateGame(gameId, game, now);
      r := Ok(game);
    }
  }

  /**
   * The idle timer as a caller sees it: an entry written at `now` and again
   * five minutes later is still cached when the first timer would have fired,
   * and is evicted, and its database record updated, ten minutes after the
   * last write.
   */
  method IdleEvictionScenario(id: string, g: Game, h: Game, now: int)
    returns (firstTimerFired: bool, lastTimerFired: bool, afterwards: Option<Game>, ghost record: Game)
    ensures !firstTimerFired && lastTimerFired && afterwards == None
    ensures record == h
  {
    var cache := new GameSocketService(map[id := g]);
    cache.UpdateGame(id, g, now);
    cache.UpdateGame(id, h, now + 5 * 60 * 1000);
    firstTimerFired := cache.Expire(id, now + IdleTimeoutMs);
    assert cache.GetGame(id) == Some(h);
    lastTimerFired := cache.Expire(id, now + 5 * 60 * 1000 + IdleTimeoutMs);
    afterwards := cache.GetGame(id);
    record := cache.store[id];
  }
}
