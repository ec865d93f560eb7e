# Memory-game session engine, modelled in Dafny

This project models the session engine of a real-time memory-matching
(card-flip) game server:

- the game record and its client projection (`src/models/Game.model.ts`);
- the card-flip/match state machine run by `GameSocketService.flipCard` and
  `GameSocketService.matchCards`;
- the process-wide cache of active games with its ten-minute idle eviction
  (`src/services/Game.service.ts`).

Three modules:

- `GameModel` (`game_model.dfy`): the enumerations `CardStatus`,
  `GameActionType` and `GameStatus`; the records `Card`, `GameAction`, `Game`,
  `SafeCard` and `SafeGame`; and the model file's `toSafeGame`. Every field is
  kept except the database bookkeeping.
- `GameRules` (`game_rules.dfy`): `flipCard` and `matchCards` as pure
  transition functions on a game value (`FlipOutcome`, `MatchOutcome`).
  Each returns `Ok(game)` or `Err(message)`, where the message is the one the
  service throws. Beside them are the invariants they keep, over single steps
  and over any sequence of commands (`Run`).
- `GameService` (`game_service.dfy`): the service file's own `toSafeGame` and
  the class `GameSocketService`. The class has the `games` map, one idle
  deadline per entry (`deadlines`) and a ghost `store` standing for the
  database collection. Its methods `FlipCard` and `MatchCards` do the
  service's steps one by one against the cached entry and write it back with
  `UpdateGame`. Each is proved equal to the pure transition, and each is
  proved to change nothing on failure.

Things the code does, which the model follows:

- There is no owner check on lookup.
- There is no score counter.
- A third flip while two cards are FLIPPED is refused with
  "Already 2 cards flipped". It is not resolved by an automatic match
  (`ScenarioThirdFlipRefused`).
- The checks run in this order: game present, game in progress, index in the
  deck, card HIDDEN, fewer than two FLIPPED.
- Cards are addressed by their position in the deck. A MATCH entry records
  the two cards' `index` fields.
- Persisting a game updates the record with the same id. It never inserts a
  record the database does not hold.
- There is no room broadcaster and no connection gateway.
- The two `toSafeGame` copies differ. The service's copy leaves out
  `updatedAt`, includes `status`, and reports half the FLIP count unrounded.
  The model file's copy rounds down.

## Model

| member | source | states |
|---|---|---|
| `GameModel.FlipCount` | src/models/Game.model.ts:98 | the number of FLIP entries of the action log, never more than the log's length |
| `GameModel.FlipCountAppend` | src/models/Game.model.ts:98 | the FLIP count of two logs joined is the sum of their counts |
| `GameModel.FlipCountPush` | src/models/Game.model.ts:98 | appending a FLIP entry adds one to the count; a MATCH, START or END entry adds nothing |
| `GameModel.ToSafeCard` | src/models/Game.model.ts:86-90 | a client card keeps `index` and `status`, and carries the card's value exactly when the status is not HIDDEN |
| `GameModel.ToSafeGame` | src/models/Game.model.ts:85-100 | cards have the deck's length and order, with `index` and `status` copied; `value` is present exactly for non-HIDDEN cards and equals the card's value; `tries` is the FLIP count divided by two, rounded down; `_id`, `userId`, `createdAt`, `updatedAt` pass through |
| `GameModel.TriesAfterAction` | src/models/Game.model.ts:98 | after one more action `tries` is half the new FLIP count, rounded down, for a FLIP, and unchanged for any other action |
| `GameRules.CountFlipped` | src/services/Game.service.ts:68 | the number of FLIPPED cards, at most the deck's length; when it is zero no card is FLIPPED |
| `GameRules.NoneFlipped` | src/services/Game.service.ts:68 | the converse: a deck with no FLIPPED card has a FLIPPED count of zero |
| `GameRules.AllFound` | src/services/Game.service.ts:104 | the completion test, every card FOUND; `MatchEffect` and `StepKeepsConsistent` state that a game is COMPLETED exactly when it holds |
| `GameRules.FlipOutcome` | src/services/Game.service.ts:59-80 | the flip transition on the looked-up entry; its failures are stated by `FlipFailures` and its effect by `FlipEffect` |
| `GameRules.MatchOutcome` | src/services/Game.service.ts:82-110 | the match transition on the looked-up entry; its failures are stated by `MatchFailures` and its effect by `MatchEffect` |
| `GameRules.FlippedPositions` | src/services/Game.service.ts:87-90 | the FLIPPED cards' deck positions, each in range and FLIPPED, strictly increasing, and including every FLIPPED position |
| `GameRules.CountFlippedUpdate` | src/services/Game.service.ts:68-71 | replacing one card changes the FLIPPED count by that card's old and new contribution only |
| `GameRules.FlipFailures` | src/services/Game.service.ts:59-69 | flip fails with "Game not found", "Game is not in progress", "Invalid card index", "Card already flipped or matched", "Already 2 cards flipped" in that order of checks, and succeeds exactly when the game is in progress, the position is in the deck, the card is HIDDEN and fewer than two cards are FLIPPED |
| `GameRules.FlipEffect` | src/services/Game.service.ts:71-79 | a successful flip turns only the card at `cardIndex` from HIDDEN to FLIPPED, appends exactly one FLIP entry with `cardIndex` and the timestamp, keeps the deck length, every other card, status and identity fields, and leaves at most two cards FLIPPED |
| `GameRules.MatchFailures` | src/services/Game.service.ts:82-88 | match fails with "Game not found", "Game is not in progress", or "Need exactly 2 flipped cards" unless exactly two cards are FLIPPED, and succeeds exactly when the game is in progress with two FLIPPED cards |
| `GameRules.MatchEffect` | src/services/Game.service.ts:90-106 | the two FLIPPED cards, in deck order, become FOUND with one MATCH entry of their `index` fields when their values are equal, or HIDDEN with the log unchanged when not; all other cards are kept; no card is FLIPPED afterwards; the game is COMPLETED exactly when every card is FOUND |
| `GameRules.MatchClearsFlipped` | src/services/Game.service.ts:90-102 | after a successful match no card is FLIPPED |
| `GameRules.FlipKeepsConsistent` | src/services/Game.service.ts:59-80 | after a successful flip at most two cards are FLIPPED and the game, still in progress, is not all FOUND |
| `GameRules.MatchKeepsConsistent` | src/services/Game.service.ts:82-110 | after a successful match no card is FLIPPED and the game is COMPLETED exactly when every card is FOUND |
| `GameRules.StepKeepsConsistent` | src/services/Game.service.ts:59-110 | after any successful flip or match, from any game, at most two cards are FLIPPED and the game is COMPLETED exactly when every card is FOUND |
| `GameRules.RunKeepsConsistent` | src/services/Game.service.ts:59-110 | any sequence of flips and matches, failed ones included, keeps "at most two FLIPPED" and "COMPLETED exactly when all FOUND" |
| `GameRules.CompletedIsFinal` | src/services/Game.service.ts:59-85 | a COMPLETED game rejects every flip and match with "Game is not in progress" and no command sequence changes it |
| `GameRules.FlipEvolves` | src/services/Game.service.ts:71-79 | a successful flip moves one card from HIDDEN to FLIPPED, keeps card indices, values and identity fields, and only appends to the log |
| `GameRules.MatchEvolves` | src/services/Game.service.ts:90-106 | a successful match moves FLIPPED cards to FOUND or back to HIDDEN, keeps card indices, values and identity fields, and only appends to the log |
| `GameRules.ApplyEvolves` | src/services/Game.service.ts:59-110 | one command moves each card only HIDDEN to FLIPPED, FLIPPED to FOUND or FLIPPED to HIDDEN, keeps card indices, values and identity fields, and only appends to the log |
| `GameRules.RunEvolves` | src/services/Game.service.ts:59-110 | over any command sequence the deck length, card indices and values and identity fields never change, FOUND cards stay FOUND, the earlier log is a prefix of the later, and COMPLETED stays COMPLETED |
| `GameRules.FlipTwo` | src/services/Game.service.ts:59-80 | two flips of HIDDEN cards in a game with none FLIPPED leave exactly those two FLIPPED and log two FLIP entries |
| `GameRules.PlayMatchingTurn` | src/services/Game.service.ts:59-110 | flip, flip, match on two equal values leaves both FOUND, logs two FLIP entries and one MATCH entry, and completes the game exactly when every card is FOUND |
| `GameRules.PlayMissingTurn` | src/services/Game.service.ts:90-102 | flip, flip, match on two different values restores the deck, logs only the two FLIP entries, and keeps the game in progress |
| `GameRules.LastPairCompletes` | src/services/Game.service.ts:104-106 | matching the last pair leaves every card FOUND and the game COMPLETED, after which every command is refused |
| `GameRules.ScenarioThirdFlipRefused` | src/services/Game.service.ts:68-69 | on the deck a, a, b, b, flipping positions 0 and 2 and then 1 fails with "Already 2 cards flipped" |
| `GameRules.ScenarioMismatch` | src/services/Game.service.ts:99-102 | on the deck a, a, b, b with a different from b, flipping 0 and 2 and matching restores the deck and leaves only the two FLIP entries |
| `GameService.ToServiceSafeCard` | src/services/Game.service.ts:7 | a client card keeps `index` and `status`, and withholds the card's value exactly when the status is HIDDEN |
| `GameService.ToServiceSafeGame` | src/services/Game.service.ts:3-12 | cards in deck order with `index` and `status` copied and `value` withheld exactly for HIDDEN cards; `tries` is exactly half the FLIP count; `_id`, `userId`, `createdAt`, `status` pass through |
| `GameService.ProjectionsAgree` | src/models/Game.model.ts:89-98 | the two projections show identical cards; the model's `tries` is the service's rounded down, and they are equal exactly when the FLIP count is even |
| `GameService.GameSocketService.constructor` | src/services/Game.service.ts:15 | the cache starts empty, with no pending timer |
| `GameService.GameSocketService.GetGame` | src/services/Game.service.ts:28-31 | the cached entry for the id, or none when the id is not cached, with no owner check |
| `GameService.GameSocketService.GetAllGames` | src/services/Game.service.ts:17-19 | one game per cache entry: the listing has one position per entry, its entry ids are distinct and are exactly the cached ids, and each position holds that entry's game |
| `GameService.GameSocketService.SetGame` | src/services/Game.service.ts:50-57 | the entry is replaced, its deadline re-armed to ten minutes after `now`, and every other entry and deadline is unchanged |
| `GameService.GameSocketService.UpdateGame` | src/services/Game.service.ts:40-42 | the same as `SetGame` |
| `GameService.GameSocketService.CreateGame` | src/services/Game.service.ts:21-26 | the created record is written to the database and cached under its id with a fresh deadline |
| `GameService.GameSocketService.LoadGame` | src/services/Game.service.ts:33-38 | a database miss returns nothing and leaves the cache alone; a hit is cached under the id with a fresh deadline and returned |
| `GameService.GameSocketService.PersistGame` | src/services/Game.service.ts:44-48 | the cached entry overwrites the database record with the same id; an uncached id, or one with no record, changes nothing |
| `GameService.GameSocketService.Expire` | src/services/Game.service.ts:52-55 | once the entry's deadline has passed, the entry is persisted and removed with its deadline; before that, or for an uncached id, nothing changes; no other entry is touched |
| `GameService.GameSocketService.GetSafeGame` | src/services/Game.service.ts:112-116 | "Game not found" for an uncached id, else the service projection of the entry, with no HIDDEN card's value in it |
| `GameService.GameSocketService.FlipCard` | src/services/Game.service.ts:59-80 | the result is the flip transition of the cached entry; a failure changes no entry and no deadline; a success writes the new game back and re-arms its deadline only |
| `GameService.GameSocketService.MatchCards` | src/services/Game.service.ts:82-110 | the result is the match transition of the cached entry; a failure changes no entry and no deadline; a success writes the new game back and re-arms its deadline only |
| `GameService.IdleEvictionScenario` | src/services/Game.service.ts:50-57 | a game written again five minutes after a first write survives the first timer, is evicted ten minutes after the second write, and its last state is the one persisted |

## Left out

- src/index.ts is not part of this model. It is an echo WebSocket server with no game logic.
- src/lib/mongodb.ts and src/lib/jwt.ts are not part of this model. They are a database connection and a wrapper around token verification.
- Database calls are abstracted. `GameDB.create` and `findById` are represented by their answers, passed in as parameters (`CreateGame.created`, `LoadGame.found`). `findByIdAndUpdate` is a write to the ghost `store`. Failures, id casting and the Mongoose schemas and index are not modelled.
- Timers become deadlines. `setTimeout`/`clearTimeout` are a deadline per entry plus the explicit `Expire(id, now)`, and `Date.now()` is the `now` parameter.
- GameService.GameSocketService.Expire: the persist and the delete run as one step. In the code, the `await` between them lets a `setGame` in the meantime be deleted. A failed persist leaves the entry cached with no timer. Neither is modelled.
- Objects are modelled as values. The code mutates the cached game's cards and action array in place, `setGame` stores a shallow copy, and the caller of `flipCard`/`matchCards` receives a game that shares its deck with the cache. The model has no aliasing. Every failure path throws before any mutation, so the model's "failure changes nothing" matches the code.
- GameService.GameSocketService.GetAllGames: the listing's order (the map's insertion order) is not stated.
- GameService.ToServiceSafeGame: `tries` is the exact real half of the FLIP count. JavaScript's double division agrees with it for counts below 2^53.
- GameRules.FlipOutcome: `cardIndex` is an integer. A fractional or NaN index reads `undefined` in the code and gives "Invalid card index" there too.
- `ObjectId.toString` is the stored hexadecimal string, and `Date` is an opaque millisecond value. JSON encoding of the projections is not modelled.
- Room broadcasting, credential checks on connect, per-owner lookup, a score counter and shutdown draining do not appear in the core code and are not modelled.
