/**
 * The two kinds of actors of the game (`Player.java`, `Dealer.java`) as classes
 * whose methods update their fields in place. Threads, waits, sleeps and the
 * user interface are not modelled: each method is one uninterrupted step of the
 * thread that runs it, and the random or external inputs (the validator, the
 * shuffles, the clock) are given as parameters.
 */
module Game {
  import opened Common
  import opened TableModel
  import opened Rules

  /** Every field of a player that its methods or the dealer change, as a value. */
  datatype PlayerState = PlayerState(
    score: int, tokens: seq<nat>, penaltyTime: int,
    penalty: bool, point: bool, freeze: bool, keyPress: nat)

  /** What `checkSet` does to the player whose claim it resolves. */
  function Outcome(p: PlayerState, v: Verdict): (r: PlayerState)
    ensures r.tokens == p.tokens && r.penaltyTime == p.penaltyTime && r.keyPress == p.keyPress
    ensures r.score == p.score + (if v == Award then 1 else 0)
    ensures r.freeze == (p.freeze && v != Release)
    ensures r.point == (p.point || v == Award) && r.penalty == (p.penalty || v == Penalize)
  {
    match v
    case Release => p.(freeze := false)
    case Award => p.(score := p.score + 1, point := true)
    case Penalize => p.(penalty := true)
  }

  class Player {
    /** The id of the player, starting from 0. */
    const id: nat
    /** True iff key presses come from the keyboard rather than the computer. */
    const human: bool
    const table: Table
    /** `env.config.pointFreezeMillis` and `env.config.penaltyFreezeMillis`. */
    const pointFreezeMillis: int
    const penaltyFreezeMillis: int

    var score: int
    /** The slots this player has put a token on, in the order they were placed. */
    var tokens: seq<nat>
    var penaltyTime: int
    var penalty: bool
    var point: bool
    var freeze: bool
    /** The last slot whose key press was accepted (0 before any). */
    var keyPress: nat

    ghost function State(): PlayerState
      reads this
    {
      PlayerState(score, tokens, penaltyTime, penalty, point, freeze, keyPress)
    }

    /** The score is never negative; at most three tokens, on distinct slots of the table. */
    ghost predicate Valid()
      reads this
    {
      score >= 0 && TokensOk(tokens, table.slotToCard.Length)
    }

    /** `Player(env, dealer, table, id, human)`: no score, no tokens, not frozen. */
    constructor (table: Table, id: nat, human: bool, pointFreezeMillis: int, penaltyFreezeMillis: int)
      ensures this.table == table && this.id == id && this.human == human
      ensures this.pointFreezeMillis == pointFreezeMillis && this.penaltyFreezeMillis == penaltyFreezeMillis
      ensures State() == PlayerState(0, [], 0, false, false, false, 0)
      ensures Valid()
    {
      this.table := table;
      this.id := id;
      this.human := human;
      this.pointFreezeMillis := pointFreezeMillis;
      this.penaltyFreezeMillis := penaltyFreezeMillis;
      score := 0;
      tokens := [];
      penaltyTime := 0;
      penalty := false;
      point := false;
      freeze := false;
      keyPress := 0;
    }

    /**
     * One pass of the player thread on the last accepted key press: toggle the
     * token on that slot; placing the third token freezes the player and queues
     * its id as a claim with the dealer.
     */
    method HandleKeyPress(dealer: Dealer) returns (claimed: bool)
      requires Valid() && keyPress < table.slotToCard.Length
      modifies this`tokens, this`freeze, dealer`playerClaims
      ensures Valid()
      ensures claimed <==> old(keyPress) !in old(tokens) && |old(tokens)| == MaxTokens - 1
      ensures State() == old(State()).(tokens := Toggle(old(tokens), keyPress).tokens,
                                       freeze := old(freeze) || claimed)
      ensures dealer.playerClaims == old(dealer.playerClaims) + (if claimed then [id] else [])
    {
      var slot, held := keyPress, tokens;
      ToggleKeepsTokensOk(held, slot, table.slotToCard.Length);
      claimed := false;
      if slot in held {
        tokens := Without(held, slot);
        var _ := table.RemoveToken(id, slot);
      } else if |held| < MaxTokens {
        tokens := held + [slot];
        var _ := table.PlaceToken(id, slot);
        if |held| + 1 == MaxTokens {
          freeze := true;
          dealer.PlayerIdFinishedSet(id);
          claimed := true;
        }
      }
    }

    /** The end of a pass of the player thread: a point is served before a penalty. */
    method ApplyOutcome()
      requires Valid()
      modifies this`tokens, this`point, this`penalty, this`penaltyTime, this`freeze
      ensures Valid()
      ensures old(point) ==> State() == old(State()).(tokens := [], point := false,
                                                      penaltyTime := pointFreezeMillis, freeze := false)
      ensures !old(point) && old(penalty) ==> State() == old(State()).(penalty := false,
                                                      penaltyTime := penaltyFreezeMillis, freeze := false)
      ensures !old(point) && !old(penalty) ==> State() == old(State())
    {
      if point {
        PointUpdate();
      } else if penalty {
        PenaltyUpdate();
      }
    }

    /** `pointUpdate`: give back every token, then serve the point freeze. */
    method PointUpdate()
      requires Valid()
      modifies this`tokens, this`point, this`penaltyTime, this`freeze
      ensures Valid()
      ensures State() == old(State()).(tokens := [], point := false,
                                       penaltyTime := pointFreezeMillis, freeze := false)
    {
      while tokens != []
        invariant Valid()
        decreases |tokens|
      {
        var slot := tokens[0];
        WithoutDistinct(tokens, slot);
        tokens := Without(tokens, slot);
        var _ := table.RemoveToken(id, slot);
      }
      point := false;
      penaltyTime := pointFreezeMillis;
      freeze := false;
    }

    /** `penaltyUpdate`: serve the penalty freeze. */
    method PenaltyUpdate()
      modifies this`penalty, this`penaltyTime, this`freeze
      ensures State() == old(State()).(penalty := false, penaltyTime := penaltyFreezeMillis, freeze := false)
    {
      penalty := false;
      penaltyTime := penaltyFreezeMillis;
      freeze := false;
    }

    /** `point`: one more point, to be served by the player thread. */
    method Point()
      modifies this`score, this`point
      ensures State() == old(State()).(score := old(score) + 1, point := true)
      ensures old(Valid()) ==> Valid()
    {
      score := score + 1;
      point := true;
    }

    /** `penalty`: a penalty, to be served by the player thread. */
    method Penalty()
      modifies this`penalty
      ensures State() == old(State()).(penalty := true)
    {
      penalty := true;
    }

    /** `setScore`: callers keep the class invariant that scores are never negative. */
    method SetScore(updateScore: int)
      requires updateScore >= 0
      modifies this`score
      ensures State() == old(State()).(score := updateScore)
      ensures old(Valid()) ==> Valid()
    {
      score := updateScore;
    }

    /** `setFreeze`. */
    method SetFreeze(toUpdate: bool)
      modifies this`freeze
      ensures State() == old(State()).(freeze := toUpdate)
    {
      freeze := toUpdate;
    }

    /** `setPenaltyTime`. */
    method SetPenaltyTime(toUpdate: int)
      modifies this`penaltyTime
      ensures State() == old(State()).(penaltyTime := toUpdate)
    {
      penaltyTime := toUpdate;
    }

    /** `keyPressed`: only a human player's keyboard is listened to. */
    method KeyPressed(slot: int)
      requires human && !freeze && !table.reshuffle ==> 0 <= slot < table.slotToCard.Length
      modifies this`keyPress
      ensures human && !freeze && !table.reshuffle && table.slotToCard[slot].Some? ==> keyPress == slot
      ensures !(human && !freeze && !table.reshuffle && table.slotToCard[slot].Some?) ==> keyPress == old(keyPress)
    {
      if human {
        KeyPressedGeneral(slot);
      }
    }

    /**
     * `keyPressedGeneral`: a press is ignored while the player is frozen, while
     * the dealer reshuffles, and on an empty slot; otherwise it is recorded.
     */
    method KeyPressedGeneral(slot: int)
      requires !freeze && !table.reshuffle ==> 0 <= slot < table.slotToCard.Length
      modifies this`keyPress
      ensures !freeze && !table.reshuffle && table.slotToCard[slot].Some? ==> keyPress == slot
      ensures !(!freeze && !table.reshuffle && table.slotToCard[slot].Some?) ==> keyPress == old(keyPress)
      ensures keyPress == old(keyPress) || (keyPress < table.slotToCard.Length && table.slotToCard[keyPress].Some?)
    {
      var reshuffle := table.GetReshuffle();
      if freeze || reshuffle || table.IsSlotEmpty(slot) {
        return;
      }
      keyPress := slot;
    }
  }

  class Dealer {
    const table: Table
    /** The players, by id; the array is never written after set-up. */
    const players: seq<Player>
    /** The validator `env.util.testSet`, which this model does not define. */
    const testSet: seq<nat> -> bool
    /** `env.config.turnTimeoutMillis` and `env.config.turnTimeoutWarningMillis`. */
    const turnTimeoutMillis: int
    const turnTimeoutWarningMillis: int

    /** The cards not on the table, in dealing order. */
    var deck: seq<nat>
    /** The wall-clock time of the next reshuffle. */
    var reshuffleTime: int
    /** Ids of players that placed their third token, oldest first. */
    var playerClaims: seq<nat>
    /** Slots whose cards form an accepted set and are to be taken off the table. */
    var cardToRemove: seq<nat>
    var isAnnounced: bool
    /** The ids of the claims `checkSet` has resolved, oldest first (not kept by the source). */
    ghost var resolvedClaims: seq<nat>

    /** The claim queue as a `ClaimLog`, so that `RunPreservesOrder` speaks of this dealer. */
    ghost function Claims(): ClaimLog
      reads this
    {
      ClaimLog(playerClaims, resolvedClaims)
    }

    /**
     * The table keeps its two arrays inverse, player `i` has id `i`, shares the
     * table and holds well-formed tokens, the deck holds distinct cards that are
     * not on the table, and every queued claim names a player.
     */
    ghost predicate Valid()
      reads this, players, table.slotToCard, table.cardToSlot
    {
      table.Valid() && PlayersOk() && DeckOk(table.Model(), deck) &&
      forall k :: 0 <= k < |playerClaims| ==> playerClaims[k] < |players|
    }

    /** Player `i` has id `i`, plays on this table and holds well-formed tokens. */
    ghost predicate PlayersOk()
      reads players
    {
      IdsOk() && forall i :: 0 <= i < |players| ==> players[i].Valid()
    }

    /** Player `i` has id `i` and plays on this table. */
    predicate IdsOk()
    {
      forall i :: 0 <= i < |players| ==> players[i].id == i && players[i].table == table
    }

    /** The scores of the players, by id. */
    ghost function Scores(): seq<int>
      reads players
    {
      seq(|players|, i reads players requires 0 <= i < |players| => players[i].score)
    }

    /** `Dealer(env, table, players)`: the deck holds every card, in order; no claims. */
    constructor (table: Table, players: seq<Player>, testSet: seq<nat> -> bool,
                 turnTimeoutMillis: int, turnTimeoutWarningMillis: int)
      ensures this.table == table && this.players == players && this.testSet == testSet
      ensures this.turnTimeoutMillis == turnTimeoutMillis && this.turnTimeoutWarningMillis == turnTimeoutWarningMillis
      ensures |deck| == table.cardToSlot.Length && forall c :: 0 <= c < |deck| ==> deck[c] == c
      ensures playerClaims == [] && cardToRemove == [] && !isAnnounced
      ensures Claims() == ClaimLog([], [])
      ensures reshuffleTime == 0x7FFF_FFFF_FFFF_FFFF
      ensures table.Valid() && (forall c :: 0 <= c < table.cardToSlot.Length ==> table.cardToSlot[c] == None) &&
              (forall i :: 0 <= i < |players| ==>
                 players[i].id == i && players[i].table == table && players[i].Valid())
              ==> Valid()
    {
      this.table := table;
      this.players := players;
      this.testSet := testSet;
      this.turnTimeoutMillis := turnTimeoutMillis;
      this.turnTimeoutWarningMillis := turnTimeoutWarningMillis;
      playerClaims := [];
      resolvedClaims := [];
      cardToRemove := [];
      isAnnounced := false;
      reshuffleTime := 0x7FFF_FFFF_FFFF_FFFF;
      deck := seq(table.cardToSlot.Length, c requires 0 <= c => c as nat);
    }

    /** `playerIdFinishedSet`: queue a claim. */
    method PlayerIdFinishedSet(player: nat)
      modifies this`playerClaims
      ensures playerClaims == old(playerClaims) + [player]
      ensures Claims() == Step(old(Claims()), Submit(player))
    {
      playerClaims := playerClaims + [player];
    }

    /**
     * `placeCardsOnTable`, given the order `Collections.shuffle` put the empty
     * slots in: the head of the deck goes to each of them in turn while the deck
     * lasts (so, by `DealFills`, afterwards the deck is empty or no slot is).
     */
    method PlaceCardsOnTable(shuffled: seq<nat>)
      requires Valid()
      requires multiset(shuffled) == multiset(SlotsWith(table.slotToCard[..], false))
      modifies table`reshuffle, table.slotToCard, table.cardToSlot, this`deck
      ensures Valid() && !table.reshuffle
      ensures SlotsInRange(shuffled, old(table.Model())) &&
              Layout(table.Model(), deck) == Deal(old(table.Model()), old(deck), shuffled)
    {
      ghost var g0, deck0 := table.Model(), deck;
      table.SetReshuffle(true);
      var slotsToPlace := CollectSlots(false);
      // The shuffled order of the empty slots is the `shuffled` argument.
      slotsToPlace := shuffled;
      assert Vacant(shuffled, g0) && Distinct(shuffled) by {
        PermutationOfSlots(g0, shuffled, false);
      }
      DealInto(slotsToPlace);
      assert PlayersOk();
      table.SetReshuffle(false);
    }

    /**
     * The slot-scanning loops of `placeCardsOnTable` (empty slots) and
     * `removeAllCardsFromTable` (occupied slots), in ascending order.
     */
    method CollectSlots(occupied: bool) returns (slots: seq<nat>)
      ensures slots == SlotsWith(table.slotToCard[..], occupied)
    {
      slots := [];
      var n := table.GetSlotToCardLength();
      var i: nat := 0;
      while i < n
        invariant i <= n == table.slotToCard.Length
        invariant slots == SlotsWith(table.slotToCard[..i], occupied)
      {
        assert table.slotToCard[..i + 1][..i] == table.slotToCard[..i];
        if table.IsSlotEmpty(i) != occupied {
          slots := slots + [i];
        }
        i := i + 1;
      }
      assert table.slotToCard[..n] == table.slotToCard[..];
    }

    /** The dealing loop of `placeCardsOnTable`: the head of the deck goes to each listed slot while the deck lasts. */
    method DealInto(slotsToPlace: seq<nat>)
      requires table.Valid() && DeckOk(table.Model(), deck)
      requires Vacant(slotsToPlace, table.Model()) && Distinct(slotsToPlace)
      modifies table.slotToCard, table.cardToSlot, this`deck
      ensures table.Valid() && DeckOk(table.Model(), deck)
      ensures Layout(table.Model(), deck) == Deal(old(table.Model()), old(deck), slotsToPlace)
    {
      ghost var g0, deck0 := table.Model(), deck;
      var i: nat := 0;
      while i < |slotsToPlace|
        invariant i <= |slotsToPlace|
        invariant table.Valid() && DeckOk(table.Model(), deck)
        invariant Vacant(slotsToPlace[i..], table.Model()) && Distinct(slotsToPlace[i..])
        invariant Deal(table.Model(), deck, slotsToPlace[i..]) == Deal(g0, deck0, slotsToPlace)
      {
        ghost var rest := slotsToPlace[i..];
        assert rest[1..] == slotsToPlace[i + 1..];
        DealStep(table.Model(), deck, rest);
        if |deck| > 0 {
          table.PlaceCard(deck[0], slotsToPlace[i]);
          deck := deck[1..];
        }
        i := i + 1;
      }
    }

    /**
     * `removeCardsFromTable`: first every player loses its tokens on the queued
     * slots, then each queued slot is emptied and dropped from the queue.
     */
    method RemoveCardsFromTable()
      requires table.Valid() && PlayersOk()
      requires Occupied(cardToRemove, table.Model()) && Distinct(cardToRemove)
      modifies table`reshuffle, table.slotToCard, table.cardToSlot, this`cardToRemove, players
      ensures table.Valid() && PlayersOk() && (old(Valid()) ==> Valid())
      ensures !table.reshuffle && cardToRemove == [] && deck == old(deck)
      ensures table.Model() == Discard(old(table.Model()), old(cardToRemove))
      ensures forall i :: 0 <= i < |players| ==>
                players[i].State() == old(players[i].State()).(tokens := Strip(old(players[i].tokens), old(cardToRemove)))
    {
      ghost var g0, q0 := table.Model(), cardToRemove;
      table.SetReshuffle(true);
      RemoveQueuedTokens();
      RemoveQueuedCards();
      assert PlayersOk();
      assert DeckOk(g0, deck) ==> DeckOk(table.Model(), deck) by {
        DiscardEffect(g0, q0);
      }
      table.SetReshuffle(false);
    }

    /** The first loop of `removeCardsFromTable`: each player gives back its tokens on the queued slots. */
    method RemoveQueuedTokens()
      requires PlayersOk()
      requires forall k :: 0 <= k < |cardToRemove| ==> cardToRemove[k] < table.slotToCard.Length
      modifies players
      ensures PlayersOk()
      ensures forall i :: 0 <= i < |players| ==>
                players[i].State() == old(players[i].State()).(tokens := Strip(old(players[i].tokens), cardToRemove))
    {
      forall j | 0 <= j < |players| ensures Strip(players[j].tokens, cardToRemove[..0]) == players[j].tokens {
        StripNothing(players[j].tokens);
      }
      var k: nat := 0;
      while k < |cardToRemove|
        invariant k <= |cardToRemove| && IdsOk()
        invariant forall j :: 0 <= j < |players| ==> Distinct(old(players[j].tokens))
        invariant forall j :: 0 <= j < |players| ==>
                    players[j].State() == old(players[j].State()).(tokens := Strip(old(players[j].tokens), cardToRemove[..k]))
      {
        var slot := cardToRemove[k];
        forall j | 0 <= j < |players|
          ensures Without(Strip(old(players[j].tokens), cardToRemove[..k]), slot) ==
                  Strip(old(players[j].tokens), cardToRemove[..k + 1])
        {
          StripStep(old(players[j].tokens), cardToRemove[..k], slot);
          assert cardToRemove[..k] + [slot] == cardToRemove[..k + 1];
        }
        DropTokensOn(slot);
        k := k + 1;
      }
      assert cardToRemove[..k] == cardToRemove;
      forall j | 0 <= j < |players| ensures players[j].Valid() {
        StripTokensOk(old(players[j].tokens), cardToRemove, table.slotToCard.Length);
      }
    }

    /** The inner loop of the first loop of `removeCardsFromTable`: every player holding a token on `slot` gives it back. */
    method DropTokensOn(slot: nat)
      requires IdsOk() && slot < table.slotToCard.Length
      modifies players
      ensures forall j :: 0 <= j < |players| ==>
                players[j].State() == old(players[j].State()).(tokens := Without(old(players[j].tokens), slot))
    {
      var i: nat := 0;
      while i < |players|
        invariant i <= |players| && IdsOk()
        invariant forall j :: 0 <= j < |players| ==>
                    players[j].State() == old(players[j].State()).(tokens :=
                      if j < i then Without(old(players[j].tokens), slot) else old(players[j].tokens))
      {
        var player := players[i];
        assert forall j :: 0 <= j < |players| && j != i ==> players[j] != player;
        label Before:
        if slot in player.tokens {
          var _ := table.RemoveToken(player.id, slot);
          player.tokens := Without(player.tokens, slot);
        } else {
          WithoutSpec(player.tokens, slot);
        }
        assert forall j :: 0 <= j < |players| && j != i ==> players[j].State() == old@Before(players[j].State());
        i := i + 1;
      }
    }

    /** The second loop of `removeCardsFromTable`: each queued slot is emptied and leaves the queue. */
    method RemoveQueuedCards()
      requires table.Valid() && Occupied(cardToRemove, table.Model()) && Distinct(cardToRemove)
      modifies table.slotToCard, table.cardToSlot, this`cardToRemove
      ensures table.Valid() && cardToRemove == []
      ensures table.Model() == Discard(old(table.Model()), old(cardToRemove))
    {
      ghost var g0, q0 := table.Model(), cardToRemove;
      while cardToRemove != []
        invariant table.Valid()
        invariant Occupied(cardToRemove, table.Model()) && Distinct(cardToRemove)
        invariant Discard(table.Model(), cardToRemove) == Discard(g0, q0)
        decreases |cardToRemove|
      {
        var slot := cardToRemove[0];
        ghost var queue := cardToRemove;
        OccupiedAfterRemove(table.Model(), queue);
        table.RemoveCard(slot);
        cardToRemove := Without(cardToRemove, slot);
        assert cardToRemove == queue[1..];
      }
    }

    /**
     * `removeAllCardsFromTable`, given the order `Collections.shuffle` put the
     * occupied slots in: every player's tokens are cleared, then each listed
     * slot's card goes to the end of the deck and the slot is emptied.
     */
    method RemoveAllCardsFromTable(shuffled: seq<nat>)
      requires Valid()
      requires multiset(shuffled) == multiset(SlotsWith(table.slotToCard[..], true))
      modifies table`reshuffle, table.slotToCard, table.cardToSlot, this`deck, players
      ensures Valid() && !table.reshuffle
      ensures Occupied(shuffled, old(table.Model())) && Distinct(shuffled) &&
              Layout(table.Model(), deck) == Collect(old(table.Model()), old(deck), shuffled)
      ensures forall i :: 0 <= i < |players| ==> players[i].State() == old(players[i].State()).(tokens := [])
    {
      ghost var g0 := table.Model();
      table.SetReshuffle(true);
      label Flagged:
      ClearTokens();
      assert Valid() && table.Model() == g0;
      label Cleared:
      ReturnCards(shuffled);
      label Returned:
      table.SetReshuffle(false);
      assert table.Model() == old@Returned(table.Model());
      forall i | 0 <= i < |players|
        ensures players[i].State() == old(players[i].State()).(tokens := [])
      {
        // One step per call: its frame, or `ClearTokens`' contract.
        var p := players[i];
        assert (p as object) != (table as object);
        assert p.State() == old@Returned(p.State()) == old@Cleared(p.State());
        assert old@Cleared(p.State()) == old@Flagged(p.State()).(tokens := []);
        assert old@Flagged(p.State()) == old(p.State());
      }
    }

    /**
     * The scan, shuffle and collecting loop of `removeAllCardsFromTable`: the
     * shuffled occupied slots are emptied in turn, their cards going to the end of the deck.
     */
    method ReturnCards(shuffled: seq<nat>)
      requires Valid()
      requires multiset(shuffled) == multiset(SlotsWith(table.slotToCard[..], true))
      modifies table.slotToCard, table.cardToSlot, this`deck
      ensures Valid()
      ensures Occupied(shuffled, old(table.Model())) && Distinct(shuffled) &&
              Layout(table.Model(), deck) == Collect(old(table.Model()), old(deck), shuffled)
      ensures forall i :: 0 <= i < |players| ==> players[i].State() == old(players[i].State())
    {
      ghost var g0, deck0 := table.Model(), deck;
      var slotsToRemove := CollectSlots(true);
      // The shuffled order of the occupied slots is the `shuffled` argument.
      slotsToRemove := shuffled;
      assert Occupied(shuffled, g0) && Distinct(shuffled) by {
        PermutationOfSlots(g0, shuffled, true);
      }
      CollectInto(slotsToRemove);
      assert DeckOk(table.Model(), deck) by {
        CollectReturnsCards(g0, deck0, shuffled);
      }
    }

    /** The first loop of `removeAllCardsFromTable`: every player's tokens are cleared. */
    method ClearTokens()
      requires PlayersOk()
      modifies players
      ensures PlayersOk()
      ensures forall i :: 0 <= i < |players| ==> players[i].State() == old(players[i].State()).(tokens := [])
    {
      var i: nat := 0;
      while i < |players|
        invariant i <= |players|
        invariant forall j :: 0 <= j < |players| ==>
                    players[j].State() == old(players[j].State()).(tokens := if j < i then [] else old(players[j].tokens))
      {
        players[i].tokens := [];
        i := i + 1;
      }
    }

    /** The collecting loop of `removeAllCardsFromTable`: each listed slot's card goes to the end of the deck and the slot is emptied. */
    method CollectInto(slotsToRemove: seq<nat>)
      requires table.Valid() && Occupied(slotsToRemove, table.Model()) && Distinct(slotsToRemove)
      modifies table.slotToCard, table.cardToSlot, this`deck
      ensures table.Valid()
      ensures Layout(table.Model(), deck) == Collect(old(table.Model()), old(deck), slotsToRemove)
    {
      ghost var g0, deck0 := table.Model(), deck;
      var i: nat := 0;
      while i < |slotsToRemove|
        invariant i <= |slotsToRemove| && table.Valid()
        invariant Occupied(slotsToRemove[i..], table.Model()) && Distinct(slotsToRemove[i..])
        invariant Collect(table.Model(), deck, slotsToRemove[i..]) == Collect(g0, deck0, slotsToRemove)
      {
        ghost var rest := slotsToRemove[i..];
        assert rest[1..] == slotsToRemove[i + 1..];
        CollectStep(table.Model(), deck, rest);
        var cardToDeck := table.GetCard(slotsToRemove[i]);
        deck := deck + [cardToDeck.value];
        table.RemoveCard(slotsToRemove[i]);
        i := i + 1;
      }
      assert CardsAt(table.slotToCard[..], []) == [] && deck + [] == deck;
    }

    /** `updateCardToRemove`: queue the slots of an accepted set for removal, in order. */
    method UpdateCardToRemove(slots: seq<nat>)
      modifies this`cardToRemove
      ensures cardToRemove == old(cardToRemove) + slots
    {
      var i: nat := 0;
      while i < |slots|
        invariant i <= |slots| && cardToRemove == old(cardToRemove) + slots[..i]
      {
        assert slots[..i + 1] == slots[..i] + [slots[i]];
        cardToRemove := cardToRemove + [slots[i]];
        i := i + 1;
      }
      assert slots[..i] == slots;
    }

    /**
     * `getSetByCards`: the cards under a player's tokens, in token order, in an
     * array of three whose places past the last token stay 0.
     */
    method GetSetByCards(playersTokens: seq<nat>) returns (cards: seq<nat>)
      requires |playersTokens| <= MaxTokens
      requires forall k :: 0 <= k < |playersTokens| ==>
                 playersTokens[k] < table.slotToCard.Length && table.slotToCard[playersTokens[k]].Some?
      ensures |cards| == MaxTokens
      ensures cards[..|playersTokens|] == CardsAt(table.slotToCard[..], playersTokens)
      ensures forall k :: |playersTokens| <= k < MaxTokens ==> cards[k] == 0
    {
      var setToReturn := new nat[MaxTokens](_ => 0);
      var index: nat := 0;
      while index < |playersTokens|
        invariant index <= |playersTokens|
        invariant forall k :: 0 <= k < index ==> setToReturn[k] == table.slotToCard[playersTokens[k]].value
        invariant forall k :: index <= k < MaxTokens ==> setToReturn[k] == 0
      {
        var card := table.GetCard(playersTokens[index]);
        setToReturn[index] := card.value;
        index := index + 1;
      }
      cards := setToReturn[..];
    }

    /**
     * `checkSet`: resolve the oldest claim, if any. A claimant that no longer
     * holds three tokens is released; otherwise the cards under its tokens go
     * to the validator, and a set earns a point and queues its slots for
     * removal, anything else a penalty.
     */
    method CheckSet()
      requires Valid()
      requires playerClaims != [] && |players[playerClaims[0]].tokens| == MaxTokens ==>
                 Occupied(players[playerClaims[0]].tokens, table.Model())
      modifies this`playerClaims, this`resolvedClaims, this`cardToRemove, players
      ensures Valid()
      ensures Claims() == Step(old(Claims()), Resolve)
      ensures old(playerClaims) == [] ==>
                playerClaims == [] && cardToRemove == old(cardToRemove) &&
                forall i :: 0 <= i < |players| ==> players[i].State() == old(players[i].State())
      ensures old(playerClaims) != [] ==>
                var id := old(playerClaims[0]);
                var v := Judge(old(players[id].tokens), table.slotToCard[..], testSet);
                playerClaims == old(playerClaims[1..]) &&
                players[id].State() == Outcome(old(players[id].State()), v) &&
                (forall i :: 0 <= i < |players| && i != id ==> players[i].State() == old(players[i].State())) &&
                cardToRemove == old(cardToRemove) + (if v == Award then old(players[id].tokens) else [])
    {
      if playerClaims == [] {
        return;
      }
      var playerId := playerClaims[0];
      playerClaims := playerClaims[1..];
      resolvedClaims := resolvedClaims + [playerId];
      var player := players[playerId];
      assert forall j :: 0 <= j < |players| && j != playerId ==> players[j] != player;
      var playersTokens := player.tokens;
      if |playersTokens| != MaxTokens {
        player.SetFreeze(false);
      } else {
        var intTokens := GetSetByCards(playersTokens);
        assert intTokens == CardsAt(table.slotToCard[..], playersTokens);
        if !testSet(intTokens) {
          player.Penalty();
        } else {
          UpdateCardToRemove(playersTokens);
          player.Point();
        }
      }
    }

    /** `updatePlayersPenalty`: every player's running freeze loses one dealer tick, floored at 0. */
    method UpdatePlayersPenalty()
      requires PlayersOk()
      modifies players
      ensures PlayersOk()
      ensures forall i :: 0 <= i < |players| ==>
                players[i].State() == old(players[i].State()).(penaltyTime := AgeFreeze(old(players[i].penaltyTime)))
    {
      var i: nat := 0;
      while i < |players|
        invariant i <= |players| && IdsOk()
        invariant forall j :: 0 <= j < |players| ==>
                    players[j].State() == old(players[j].State()).(penaltyTime :=
                      if j < i then AgeFreeze(old(players[j].penaltyTime)) else old(players[j].penaltyTime))
      {
        var player := players[i];
        if player.penaltyTime > 0 {
          var aged := player.penaltyTime - DealerTimeout;
          player.SetPenaltyTime(if aged > 0 then aged else 0);
        }
        i := i + 1;
      }
    }

    /** `announceWinners`: the ids of the players with the highest score, ascending; the game is then over. */
    method AnnounceWinners() returns (winners: seq<nat>)
      requires |players| > 0 && IdsOk()
      modifies this`isAnnounced
      ensures isAnnounced && winners == Winners(Scores())
    {
      winners := WinnerIds();
      isAnnounced := true;
    }

    /** The two loops of `announceWinners`: the highest score, then the ids that reach it, in id order. */
    method WinnerIds() returns (winners: seq<nat>)
      requires |players| > 0 && IdsOk()
      ensures winners == Winners(Scores())
    {
      ghost var scores := Scores();
      var max: int := players[0].score;
      var i: nat := 1;
      while i < |players|
        invariant 1 <= i <= |players|
        invariant max == MaxScore(scores[..i])
      {
        assert scores[..i + 1][..i] == scores[..i];
        if players[i].score > max {
          max := players[i].score;
        }
        i := i + 1;
      }
      assert scores[..i] == scores;
      winners := [];
      i := 0;
      while i < |players|
        invariant i <= |players|
        invariant winners == ScoredExactly(scores[..i], max)
      {
        assert scores[..i + 1][..i] == scores[..i];
        if players[i].score == max {
          winners := winners + [players[i].id];
        }
        i := i + 1;
      }
      assert scores[..i] == scores;
    }

    /**
     * `updateTimerDisplay(reset)` at clock time `now`: a reset schedules the
     * next reshuffle a full turn ahead and shows the full turn; otherwise the
     * display shows the `Countdown` to the scheduled reshuffle.
     */
    method UpdateTimerDisplay(reset: bool, now: int) returns (shown: Display)
      modifies this`reshuffleTime
      ensures reset ==> reshuffleTime == now + turnTimeoutMillis && shown == Display(turnTimeoutMillis, false)
      ensures !reset ==> reshuffleTime == old(reshuffleTime) &&
                         shown == Countdown(reshuffleTime, now, turnTimeoutWarningMillis)
    {
      if reset {
        shown := Display(turnTimeoutMillis, false);
        reshuffleTime := now + turnTimeoutMillis;
      } else {
        var left := reshuffleTime - now - DealerTimeout;
        if left > turnTimeoutWarningMillis {
          shown := Display(left, false);
        } else {
          shown := Display(if left > 0 then left else 0, true);
        }
      }
    }
  }
}
