# Set card game: table, dealer and player state

This project models the sequential state logic of a Java implementation of the
card game Set (package `bguspl.set.ex`). Threads, waits and the user interface are
stripped away. Three actors share the state:

- **Table** (`table.dfy`, module `TableModel`). A class with two arrays,
  slot→card and card→slot, that must stay mutually inverse. It also holds the
  reshuffle flag, the card count, the emptiness test and the token calls. The
  token calls only drive the user interface.
- **Player** (`game.dfy`, class `Game.Player`). The token toggle run by the player
  thread, the guard that drops key presses, the point and penalty bookkeeping,
  and the freeze served after an outcome.
- **Dealer** (`game.dfy`, class `Game.Dealer`). It owns:
  - the deck;
  - the FIFO queue of claims;
  - the queue of slots to clear.

  It deals from the front of the deck into the empty slots, and clears matched
  slots together with the tokens on them. It returns every card to the deck,
  resolves one claim at a time, ages freeze timers, and announces the winners.

Every operation that changes state in place is a method of a class. A method
that only assigns a few fields (`Point`, `Penalty`, the setters, `PenaltyUpdate`,
`SetReshuffle`, `PlayerIdFinishedSet`) states its new state outright as a field
or record update. Three loops also state their result outright:
- `PointUpdate` pops the token queue until it is empty: the tokens become `[]`.
- `ClearTokens` empties every player's tokens: each becomes `[]`.
- `UpdateCardToRemove` appends the slots it is given (the claimant's tokens), in order, to the removal queue.

`DropTokensOn` is proved against `Without` in `common.dfy`. Every other method
that runs a loop or resolves a claim is proved against a value-level function
in `rules.dfy` (module `Rules`), `table.dfy` or, for `Outcome`, `game.dfy`:

| method | function it is proved against |
|---|---|
| dealing | `Deal` |
| clearing matched slots | `Discard` and `Strip` |
| returning cards | `Collect` |
| token toggle | `Toggle` |
| claim outcome | `Judge` and `Outcome` |
| freeze ageing | `AgeFreeze` |
| winners | `Winners` |

The lemmas next to those functions state what the game promises:
- the inverse-map invariant;
- conservation of cards between the deck and the table;
- the bound of three distinct tokens;
- FIFO claim order;
- the winners are the players with the maximum score.

Randomness and outside code enter as parameters:
- The order `Collections.shuffle` produces is the `shuffled` argument. Any
  permutation of the collected slots is allowed.
- The set validator `env.util.testSet` is the dealer's constant `testSet`.
- The clock is the `now` argument of `UpdateTimerDisplay`.

`common.dfy` (module `Common`) holds the shared pieces:
- the optional value;
- `Distinct`;
- `Without`, the first-occurrence removal of `Queue.remove(Object)`.

## Model

| member | source | states |
|---|---|---|
| `Common.WithoutSpec` | src/main/java/ex/Player.java:153-155 | `tokens.remove(slot)` drops exactly one copy of a held slot and nothing else (multiset minus one); an absent slot leaves the list unchanged |
| `Common.WithoutDistinct` | src/main/java/ex/Player.java:153-155 | on a token list without repeats, removing a slot keeps it repeat-free and removes exactly that slot |
| `TableModel.PlaceKeepsInverse` | src/main/java/ex/Table.java:13 | placing an unplaced card into an empty slot keeps slot→card and card→slot mutually inverse |
| `TableModel.RemoveKeepsInverse` | src/main/java/ex/Table.java:13 | emptying an occupied slot keeps the two arrays inverse, and the card it held is a valid card index |
| `TableModel.PlaceRemoveRoundTrip` | src/main/java/ex/Table.java:99-100 | `placeCard(c, s)` into an empty slot with an unplaced card, then `removeCard(s)`, restores both arrays exactly |
| `TableModel.TableCardsUpdate` | src/main/java/ex/Table.java:79-85 | writing one slot changes the bag of cards on the table by exactly the slot's old and new content |
| `TableModel.TableCardsDiffer` | src/main/java/ex/Table.java:79-85 | two slot rows that differ in one slot differ, as bags of cards, by exactly that slot's contents |
| `TableModel.CountAfterUpdate` | src/main/java/ex/Table.java:79-85 | filling an empty slot raises the card count by one; emptying an occupied slot lowers it by one |
| `TableModel.SlotsWithSpec` | src/main/java/ex/Dealer.java:198-202 | the slot scan lists exactly the empty (or occupied) slots, strictly ascending |
| `TableModel.EmptySlotNoCard` | src/main/java/ex/Table.java:13 | under the invariant a slot is empty iff no card records that slot |
| `TableModel.Table.constructor` | src/main/java/ex/Table.java:57-59 | a new table has `tableSize` empty slots, `deckSize` unplaced cards, no reshuffle, and satisfies the invariant |
| `TableModel.Table.FromArrays` | src/main/java/ex/Table.java:44-50 | the table wraps the two given arrays and is not reshuffling |
| `TableModel.Table.CountCards` | src/main/java/ex/Table.java:79-85 | the count is the number of non-null slots |
| `TableModel.Table.PlaceCard` | src/main/java/ex/Table.java:94-102 | slot→card[slot] becomes card and card→slot[card] becomes slot, nothing else changes; the invariant is kept when the slot was empty and the card unplaced |
| `TableModel.Table.RemoveCard` | src/main/java/ex/Table.java:111-123 | requires an occupied slot (its card is unboxed); both the slot and its card become null, nothing else changes; the invariant is kept |
| `TableModel.Table.PlaceToken` | src/main/java/ex/Table.java:132-136 | the token is drawn iff the slot holds a card; neither array changes |
| `TableModel.Table.RemoveToken` | src/main/java/ex/Table.java:144-150 | returns false iff the slot holds no card, true for any occupied slot; neither array changes |
| `TableModel.Table.GetSlotToCardLength` | src/main/java/ex/Table.java:156-158 | the number of slots |
| `TableModel.Table.GetCard` | src/main/java/ex/Table.java:165-167 | read-only lookup of the slot's card, which under the invariant records this slot |
| `TableModel.Table.GetSlot` | src/main/java/ex/Table.java:174-176 | read-only lookup of the card's slot, which under the invariant holds this card |
| `TableModel.Table.GetReshuffle` | src/main/java/ex/Table.java:182-184 | returns the reshuffle flag |
| `TableModel.Table.SetReshuffle` | src/main/java/ex/Table.java:192-194 | sets the reshuffle flag and nothing else |
| `TableModel.Table.IsSlotEmpty` | src/main/java/ex/Table.java:201-208 | true iff the slot is null; under the invariant, iff no card points at the slot |
| `TableModel.PlaceThenRemove` | src/main/java/ex/Table.java:94-123 | placing then removing a card on the table object leaves both arrays as they were and the invariant intact |
| `Rules.ToggleKeepsTokensOk` | src/main/java/ex/Player.java:153-161 | a key press keeps at most three tokens, on distinct slots of the table; it completes a claim iff it adds a new slot to exactly two tokens |
| `Rules.ToggleSpec` | src/main/java/ex/Player.java:153-161 | only the pressed slot changes: a held slot loses its token, a new slot gains one only while fewer than three are held; a claim leaves exactly three tokens |
| `Rules.PressTwice` | src/main/java/ex/Player.java:153-158 | pressing a new slot twice while fewer than three tokens are held gives back the original tokens |
| `Rules.WithoutAppended` | src/main/java/ex/Player.java:153-158 | removing the slot just appended gives back the list |
| `Rules.StripSpec` | src/main/java/ex/Dealer.java:170-177 | after the queued slots are stripped, a slot holds a token iff it had one and is not queued; no repeats appear and the list does not grow |
| `Rules.StripTokensOk` | src/main/java/ex/Dealer.java:170-177 | stripping queued slots keeps a player's tokens well formed |
| `Rules.StripStep` | src/main/java/ex/Dealer.java:170-177 | removing one more queued slot from stripped tokens equals stripping the longer queue |
| `Rules.StripNothing` | src/main/java/ex/Dealer.java:170-177 | stripping an empty queue keeps every token |
| `Rules.RunPreservesOrder` | src/main/java/ex/Dealer.java:363-366 | over any interleaving of `playerIdFinishedSet` and `checkSet` (whose contracts state that each takes one `Step` of the dealer's `Claims()` log), resolved claims followed by pending ones are exactly the submitted ids in submission order |
| `Rules.ClaimsResolvedInSubmissionOrder` | src/main/java/ex/Dealer.java:392-394 | from an empty queue, the claims resolved are a prefix of the claims submitted: FIFO |
| `Rules.AgeTicksSpec` | src/main/java/ex/Dealer.java:348-357 | after n dealer ticks a positive freeze t is max(0, t − 5n); a non-positive one never changes |
| `Rules.FreezeEnds` | src/main/java/ex/Dealer.java:348-357 | the remaining-freeze counter `penaltyTime` of t > 0 ms reaches 0 after exactly ⌈t / 5⌉ ticks and is still positive one tick earlier |
| `Rules.CountdownMonotone` | src/main/java/ex/Dealer.java:237-241 | as the clock advances the shown countdown never rises and is never negative, and once in warning colour it stays so |
| `Rules.MaxScoreSpec` | src/main/java/ex/Dealer.java:273-278 | the first loop's maximum is one of the scores and no score exceeds it |
| `Rules.ScoredExactlySpec` | src/main/java/ex/Dealer.java:279-283 | the second loop lists exactly the ids with that score, ascending |
| `Rules.WinnersSpec` | src/main/java/ex/Dealer.java:271-290 | the winners are non-empty, ascending, and are exactly the players whose score no other player beats |
| `Rules.WinnersExamples` | src/main/java/ex/Dealer.java:271-290 | scores 3, 5, 7 give winner 2; scores 5, 7, 7 give winners 1 and 2 |
| `Rules.DealKeepsInvariant` | src/main/java/ex/Dealer.java:204-209 | dealing a valid deck into distinct empty slots keeps the grid inverse and the deck valid |
| `Rules.DealEffect` | src/main/java/ex/Dealer.java:204-209 | the j-th listed slot receives the j-th deck card for j < min(slots, deck); the deck loses exactly those front cards; every other slot is untouched |
| `Rules.DealConserves` | src/main/java/ex/Dealer.java:204-209 | deck cards plus table cards are the same bag before and after dealing |
| `Rules.DealStep` | src/main/java/ex/Dealer.java:205-208 | one round of the dealing loop: the first slot takes the deck's head, if any, and the invariant holds for the rest |
| `Rules.DealCount` | src/main/java/ex/Dealer.java:195-211 | dealing adds exactly min(#listed slots, #deck) cards to the table |
| `Rules.DealFills` | src/main/java/ex/Dealer.java:198-209 | dealing into a permutation of the empty slots leaves either no empty slot or an empty deck |
| `Rules.OccupiedAfterRemove` | src/main/java/ex/Dealer.java:178-181 | after the first queued slot is emptied, the remaining queued slots are still occupied |
| `Rules.VacantAfterPlace` | src/main/java/ex/Dealer.java:204-209 | after the first listed slot is filled, the remaining listed slots are still empty |
| `Rules.CollectStep` | src/main/java/ex/Dealer.java:260-264 | one round of the collecting loop: the slot's card goes to the end of the deck and the slot is emptied |
| `Rules.CardsAtFresh` | src/main/java/ex/Dealer.java:260-264 | the cards collected from distinct occupied slots are distinct from each other and from the deck |
| `Rules.DiscardEffect` | src/main/java/ex/Dealer.java:178-181 | emptying the queued slots empties exactly them and unplaces exactly their cards; the invariant holds |
| `Rules.DiscardConserves` | src/main/java/ex/Dealer.java:178-181 | the table loses exactly the cards of the queued slots |
| `Rules.CardsAtAfterRemove` | src/main/java/ex/Dealer.java:178-181 | emptying the first queued slot leaves the cards of the other queued slots unchanged |
| `Rules.DiscardCount` | src/main/java/ex/Dealer.java:168-183 | the card count drops by the number of queued slots |
| `Rules.PermutationOfSlots` | src/main/java/ex/Dealer.java:203 | any shuffle of the scanned empty (or occupied) slots lists each such slot exactly once |
| `Rules.CollectClears` | src/main/java/ex/Dealer.java:247-266 | returning all cards leaves every slot empty and every card unplaced |
| `Rules.CollectReturnsCards` | src/main/java/ex/Dealer.java:247-266 | the new deck is valid and is the old deck plus every card from the table, as a bag |
| `Rules.EmptyTableHasNoCards` | src/main/java/ex/Table.java:79-85 | a table whose slots are all empty has no cards on it |
| `Game.Outcome` | src/main/java/ex/Dealer.java:367-379 | a release only clears the freeze flag; a point adds 1 to the score and sets the point flag; a penalty only sets the penalty flag; tokens are kept |
| `Game.Player.constructor` | src/main/java/ex/Player.java:122-134 | no score, no tokens, no penalty time, not frozen, key press 0; the invariant (score ≥ 0, well-formed tokens) holds |
| `Game.Player.HandleKeyPress` | src/main/java/ex/Player.java:153-161 | the tokens become the toggled tokens, well formed; the player freezes and its id is appended once to the claim queue iff the press adds the third token |
| `Game.Player.ApplyOutcome` | src/main/java/ex/Player.java:170-175 | a pending point is served before a pending penalty; with neither, nothing changes |
| `Game.Player.PointUpdate` | src/main/java/ex/Player.java:273-286 | every token is returned, the point flag is cleared, the freeze is the point freeze, and the player is unfrozen |
| `Game.Player.PenaltyUpdate` | src/main/java/ex/Player.java:292-301 | the penalty flag is cleared, the freeze is the penalty freeze, tokens kept, the player is unfrozen |
| `Game.Player.Point` | src/main/java/ex/Player.java:239-244 | the score rises by exactly 1 and the point flag is set; nothing else changes; the invariant `score >= 0` (Player.java:10) is kept |
| `Game.Player.Penalty` | src/main/java/ex/Player.java:250-252 | only the penalty flag is set |
| `Game.Player.SetScore` | src/main/java/ex/Player.java:317 | only the score changes; a caller must pass a non-negative score, as the class invariant `score >= 0` (Player.java:10) demands, and the invariant is kept |
| `Game.Player.SetFreeze` | src/main/java/ex/Player.java:350-352 | only the freeze flag changes |
| `Game.Player.SetPenaltyTime` | src/main/java/ex/Player.java:341-343 | only the penalty time changes |
| `Game.Player.KeyPressed` | src/main/java/ex/Player.java:227-231 | only a human player's press is forwarded to the guard |
| `Game.Player.KeyPressedGeneral` | src/main/java/ex/Player.java:259-267 | a press is recorded iff the player is not frozen, the table is not reshuffling and the slot holds a card; otherwise `keyPress` is unchanged |
| `Game.Dealer.constructor` | src/main/java/ex/Dealer.java:98-107 | the deck is 0, 1, …, deckSize − 1; both queues are empty; nothing is announced; the reshuffle time is `Long.MAX_VALUE`; on a valid table with no card placed and well-formed players numbered by id, the dealer invariant holds |
| `Game.Dealer.PlayerIdFinishedSet` | src/main/java/ex/Dealer.java:392-394 | the id is appended to the claim queue: one `Submit` step of the claim log |
| `Game.Dealer.PlaceCardsOnTable` | src/main/java/ex/Dealer.java:195-211 | the new grid and deck are `Deal` of the old ones into the shuffled empty slots; the dealer invariant holds and the reshuffle flag is false on return |
| `Game.Dealer.CollectSlots` | src/main/java/ex/Dealer.java:198-202 | the scan returns `SlotsWith` of the current slots, i.e. exactly the empty (or occupied) slots, ascending |
| `Game.Dealer.DealInto` | src/main/java/ex/Dealer.java:204-209 | the dealing loop leaves the grid and deck equal to `Deal` of the old ones, with the invariant kept |
| `Game.Dealer.RemoveCardsFromTable` | src/main/java/ex/Dealer.java:168-183 | from any state with a well-formed table and players, whatever the deck holds: every player's tokens on queued slots are stripped; the grid becomes `Discard` of the queue; the queue is empty; the deck is unchanged (removed cards are not returned); reshuffle false on return; the whole dealer invariant is kept when it held before |
| `Game.Dealer.RemoveQueuedTokens` | src/main/java/ex/Dealer.java:170-177 | each player's tokens become `Strip` of its old tokens by the queue, still well formed; nothing else changes |
| `Game.Dealer.DropTokensOn` | src/main/java/ex/Dealer.java:171-176 | every player loses its token on the slot, if any; nothing else changes |
| `Game.Dealer.RemoveQueuedCards` | src/main/java/ex/Dealer.java:178-181 | the grid becomes `Discard` of the queue and the queue empties |
| `Game.Dealer.RemoveAllCardsFromTable` | src/main/java/ex/Dealer.java:247-266 | every player's tokens are cleared; the grid and deck become `Collect` of the old ones over the shuffled occupied slots; the invariant holds, reshuffle false |
| `Game.Dealer.ReturnCards` | src/main/java/ex/Dealer.java:253-264 | the occupied slots, in the shuffled order, are emptied one by one and their cards appended to the deck: the grid and deck become `Collect` of the old ones; the dealer invariant is kept and no player changes |
| `Game.Dealer.ClearTokens` | src/main/java/ex/Dealer.java:249-251 | every player's token list becomes empty; nothing else changes |
| `Game.Dealer.CollectInto` | src/main/java/ex/Dealer.java:260-264 | the collecting loop leaves the grid and deck equal to `Collect` of the old ones |
| `Game.Dealer.UpdateCardToRemove` | src/main/java/ex/Dealer.java:338-342 | the slots are appended to the removal queue, in order |
| `Game.Dealer.GetSetByCards` | src/main/java/ex/Dealer.java:314-322 | three entries: the cards under the tokens in token order, then zeros |
| `Game.Dealer.CheckSet` | src/main/java/ex/Dealer.java:363-385 | an empty queue changes nothing; otherwise exactly the head claim is consumed, the claimant gets `Outcome` of `Judge` (release if not three tokens, point if the validator accepts, else penalty), other players are unchanged, and only a point appends the claimant's token slots to the removal queue; the claim log takes one `Resolve` step |
| `Game.Dealer.UpdatePlayersPenalty` | src/main/java/ex/Dealer.java:348-357 | each player's penalty time becomes `AgeFreeze` of it (positive t to max(0, t − 5), others unchanged); nothing else changes |
| `Game.Dealer.AnnounceWinners` | src/main/java/ex/Dealer.java:271-290 | returns `Winners` of the scores (see `Rules.WinnersSpec`) and sets `isAnnounced` |
| `Game.Dealer.WinnerIds` | src/main/java/ex/Dealer.java:272-283 | the two loops compute exactly `Winners` of the players' scores |
| `Game.Dealer.UpdateTimerDisplay` | src/main/java/ex/Dealer.java:233-242 | a reset schedules the reshuffle a full turn from `now` and shows the full turn; otherwise it shows `Countdown` and keeps the schedule |

## Left out

- Threads and blocking are not modelled; each method is one uninterrupted step of the thread that runs it. This covers `run`, `timerLoop`, `sleepUntilWokenOrTimeout`, `initiatePlayersThreads`, `terminate`, `wait`/`notifyAll`, `Thread.sleep` and `join`. It also covers the placeCard/removeCard delays and the freeze sleeps in `pointUpdate`/`penaltyUpdate`.
- The AI key-press thread (`createArtificialIntelligence`) is not modelled: it is a random, concurrent input source. A computer player's press is a call to `KeyPressedGeneral`.
- `shouldFinish` and `findSets` depend on the external validator and are left out. `testSet` is an uninterpreted parameter of the dealer.
- All `env.ui` calls, `env.logger` and `Table.hints` are left out: they are output only.
- `Collections.shuffle` of the slot lists is the `shuffled` argument of `PlaceCardsOnTable` and `RemoveAllCardsFromTable`. It may be any permutation of the scanned slots. The deck shuffle in `run` (src/main/java/ex/Dealer.java:117) is not a separate step: `PlaceCardsOnTable` and its lemmas hold for any deck order, so they cover every order that shuffle can produce.
- The accessors `getTokens`, `score`, `getPenaltyTime`, `getPenaltyState`, `getKeyPress`, `getPlayers` and `geCardToRemove` are left out as methods: the model reads the fields directly.
- `Player.dealer` is not a field. `HandleKeyPress` takes the dealer as a parameter, because the Java dealer and players are built from each other.
- The player array is a `seq<Player>` that is never reassigned, as in the source.
- The Dealer constructor builds the deck up to the table's card-array length; `deckSize` is the length of that array.
- The `ConcurrentLinkedQueue`s are sequences. Removing the iterated element while iterating (in `removeCardsFromTable`'s second loop and in `pointUpdate`) is modelled as repeatedly popping the head. Both loops empty the queue that way.
- `placeCardsOnTable`, `removeCardsFromTable` and `removeAllCardsFromTable` each run several loops. The model gives each loop its own method: `CollectSlots`, `DealInto`, `RemoveQueuedTokens`/`DropTokensOn`, `RemoveQueuedCards`, `ClearTokens`, `ReturnCards`/`CollectInto`. The `announceWinners` loops are `WinnerIds`.
- `Game.Dealer.CheckSet`: requires that a claimant holding three tokens holds them on occupied slots. The source unboxes a null card otherwise. That can happen when a press is recorded on a slot that the dealer empties before the player thread handles the press.
- `Game.Dealer.RemoveCardsFromTable`: requires the removal queue to hold distinct occupied slots. In the source this holds because each accepted set is cleared before the next claim is resolved. The loop that interleaves `checkSet` and the removal is not modelled.
- `Game.Player.Point`: does not model 32-bit wrap-around of the `int` score. Scores are unbounded integers.
- `Game.Dealer.UpdateTimerDisplay`: reads the clock once per call, where the source reads `System.currentTimeMillis()` up to twice: once on a reset, and otherwise once to choose the warning colour and once more for the value shown. The second read can differ from the one that chose the colour. It does not model 64-bit overflow of `long` arithmetic.
- `Game.Dealer.UpdatePlayersPenalty`, `Game.Player.SetPenaltyTime`: `long` penalty times are unbounded integers.
- `TableModel.Table.RemoveToken`: the Javadoc promises "true iff a token was successfully removed", but the code returns true for any occupied slot. The model follows the code.
