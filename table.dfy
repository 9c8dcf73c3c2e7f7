/**
 * The shared grid (`Table.java`): a slot-to-card array and a card-to-slot
 * array that must stay mutually inverse, the reshuffle flag, and the token
 * operations (which only drive the user interface and change neither array).
 */
module TableModel {
  import opened Common

  /** The contents of the two arrays of a table, as values. */
  datatype Grid = Grid(slotToCard: seq<Option<nat>>, cardToSlot: seq<Option<nat>>)

  /** The class invariant `slotToCard[x] == y iff cardToSlot[y] == x` (Table.java:13). */
  ghost predicate Inverse(g: Grid)
  {
    (forall s :: 0 <= s < |g.slotToCard| && g.slotToCard[s].Some? ==>
       g.slotToCard[s].value < |g.cardToSlot| && g.cardToSlot[g.slotToCard[s].value] == Some(s)) &&
    (forall c :: 0 <= c < |g.cardToSlot| && g.cardToSlot[c].Some? ==>
       g.cardToSlot[c].value < |g.slotToCard| && g.slotToCard[g.cardToSlot[c].value] == Some(c))
  }

  /** `placeCard(card, slot)`: both arrays point at each other for this pair. */
  function Place(g: Grid, card: nat, slot: nat): Grid
    requires slot < |g.slotToCard| && card < |g.cardToSlot|
  {
    Grid(g.slotToCard[slot := Some(card)], g.cardToSlot[card := Some(slot)])
  }

  /** `removeCard(slot)`: the slot and the card it held both become null. */
  function Remove(g: Grid, slot: nat): Grid
    requires slot < |g.slotToCard| && g.slotToCard[slot].Some?
    requires g.slotToCard[slot].value < |g.cardToSlot|
  {
    Grid(g.slotToCard[slot := None], g.cardToSlot[g.slotToCard[slot].value := None])
  }

  /** The cards on the table, in slot order. */
  function TableCards(sc: seq<Option<nat>>): seq<nat>
  {
    if sc == [] then []
    else TableCards(sc[..|sc| - 1]) + Boxed(sc[|sc| - 1])
  }

  /** A slot's content as a list of zero or one card. */
  function Boxed(o: Option<nat>): seq<nat>
  {
    if o.Some? then [o.value] else []
  }

  /** The indices of the slots that are empty (`occupied == false`) or hold a card, ascending. */
  function SlotsWith(sc: seq<Option<nat>>, occupied: bool): seq<nat>
  {
    if sc == [] then []
    else SlotsWith(sc[..|sc| - 1], occupied) + (if sc[|sc| - 1].Some? == occupied then [|sc| - 1] else [])
  }

  /** The cards in the given slots, in the order of the slots. */
  function CardsAt(sc: seq<Option<nat>>, slots: seq<nat>): seq<nat>
    requires forall k :: 0 <= k < |slots| ==> slots[k] < |sc| && sc[slots[k]].Some?
  {
    seq(|slots|, k requires 0 <= k < |slots| => sc[slots[k]].value)
  }

  /** Placing an unplaced card into an empty slot keeps the two arrays inverse. */
  lemma PlaceKeepsInverse(g: Grid, card: nat, slot: nat)
    requires Inverse(g)
    requires slot < |g.slotToCard| && card < |g.cardToSlot|
    requires g.slotToCard[slot] == None && g.cardToSlot[card] == None
    ensures Inverse(Place(g, card, slot))
  {
  }

  /** Removing the card of an occupied slot keeps the two arrays inverse. */
  lemma RemoveKeepsInverse(g: Grid, slot: nat)
    requires Inverse(g)
    requires slot < |g.slotToCard| && g.slotToCard[slot].Some?
    ensures g.slotToCard[slot].value < |g.cardToSlot|
    ensures Inverse(Remove(g, slot))
  {
  }

  /** Placing a card and removing it again restores both arrays exactly. */
  lemma PlaceRemoveRoundTrip(g: Grid, card: nat, slot: nat)
    requires slot < |g.slotToCard| && card < |g.cardToSlot|
    requires g.slotToCard[slot] == None && g.cardToSlot[card] == None
    ensures Remove(Place(g, card, slot), slot) == g
  {
  }

  /** Writing one slot changes the cards on the table by exactly the old and new content. */
  lemma TableCardsUpdate(sc: seq<Option<nat>>, i: nat, v: Option<nat>)
    requires i < |sc|
    ensures multiset(TableCards(sc[i := v])) + multiset(Boxed(sc[i])) ==
            multiset(TableCards(sc)) + multiset(Boxed(v))
  {
    TableCardsDiffer(sc, sc[i := v], i);
  }

  /** Two rows of slots that differ in slot `i` alone differ, as bags of cards, by that slot's contents. */
  lemma {:induction false} TableCardsDiffer(a: seq<Option<nat>>, b: seq<Option<nat>>, i: nat)
    requires |a| == |b| && i < |a|
    requires forall k :: 0 <= k < |a| && k != i ==> a[k] == b[k]
    ensures multiset(TableCards(b)) + multiset(Boxed(a[i])) == multiset(TableCards(a)) + multiset(Boxed(b[i]))
  {
    var last := |a| - 1;
    var a', b' := a[..last], b[..last];
    TableCardsSplit(a);
    TableCardsSplit(b);
    if i == last {
      assert a' == b';
      Exchange(multiset(TableCards(a)), multiset(TableCards(b)), multiset(TableCards(a')),
               multiset(Boxed(a[i])), multiset(Boxed(b[i])));
    } else {
      assert a[last] == b[last];
      TableCardsDiffer(a', b', i);
      Rebalance(multiset(TableCards(a)), multiset(TableCards(b)), multiset(TableCards(a')), multiset(TableCards(b')),
                multiset(Boxed(a[i])), multiset(Boxed(b[i])), multiset(Boxed(a[last])));
    }
  }

  /** Bag arithmetic: a common part added to both sides of a balance keeps it. */
  lemma Rebalance(ma: multiset<nat>, mb: multiset<nat>, ma': multiset<nat>, mb': multiset<nat>,
                  x: multiset<nat>, y: multiset<nat>, l: multiset<nat>)
    requires ma == ma' + l && mb == mb' + l && mb' + x == ma' + y
    ensures mb + x == ma + y
  {
    assert mb + x == (mb' + x) + l;
    assert ma + y == (ma' + y) + l;
  }

  /** Bag arithmetic: two bags that share all but one part balance once each gets the other's part. */
  lemma Exchange(ma: multiset<nat>, mb: multiset<nat>, m: multiset<nat>, x: multiset<nat>, y: multiset<nat>)
    requires ma == m + x && mb == m + y
    ensures mb + x == ma + y
  {
    assert mb + x == (m + x) + y;
  }

  /** The cards on the table are those before the last slot, then the last slot's. */
  lemma TableCardsSplit(sc: seq<Option<nat>>)
    requires sc != []
    ensures multiset(TableCards(sc)) == multiset(TableCards(sc[..|sc| - 1])) + multiset(Boxed(sc[|sc| - 1]))
  {
    assert TableCards(sc) == TableCards(sc[..|sc| - 1]) + Boxed(sc[|sc| - 1]);
  }

  /** Filling an empty slot adds one card to the count; emptying an occupied slot removes one. */
  lemma CountAfterUpdate(sc: seq<Option<nat>>, i: nat, v: Option<nat>)
    requires i < |sc|
    ensures sc[i].None? && v.Some? ==> |TableCards(sc[i := v])| == |TableCards(sc)| + 1
    ensures sc[i].Some? && v.None? ==> |TableCards(sc[i := v])| == |TableCards(sc)| - 1
  {
    TableCardsUpdate(sc, i, v);
    var before, after := TableCards(sc), TableCards(sc[i := v]);
    assert |multiset(after) + multiset(Boxed(sc[i]))| == |multiset(before) + multiset(Boxed(v))|;
    assert |multiset(after)| == |after| && |multiset(before)| == |before|;
  }

  /** `SlotsWith` lists exactly the slots of the requested kind, in strictly ascending order. */
  lemma {:induction false} SlotsWithSpec(sc: seq<Option<nat>>, occupied: bool)
    ensures forall x: nat :: x in SlotsWith(sc, occupied) <==> x < |sc| && sc[x].Some? == occupied
    ensures forall i, j :: 0 <= i < j < |SlotsWith(sc, occupied)| ==>
              SlotsWith(sc, occupied)[i] < SlotsWith(sc, occupied)[j]
  {
    if sc != [] {
      var last := |sc| - 1;
      SlotsWithSpec(sc[..last], occupied);
      var r := SlotsWith(sc[..last], occupied);
      forall k | 0 <= k < |r| ensures r[k] < last {
        assert r[k] in r;
      }
      forall x: nat ensures x in SlotsWith(sc, occupied) <==> x < |sc| && sc[x].Some? == occupied {
        if x < last {
          assert sc[..last][x] == sc[x];
        }
      }
    }
  }

  /** Ascending slot lists have no repeats. */
  lemma SlotsWithDistinct(sc: seq<Option<nat>>, occupied: bool)
    ensures Distinct(SlotsWith(sc, occupied))
  {
    SlotsWithSpec(sc, occupied);
  }

  /** Under the invariant, a slot is empty iff no card points at it. */
  lemma EmptySlotNoCard(g: Grid, slot: nat)
    requires Inverse(g) && slot < |g.slotToCard|
    ensures g.slotToCard[slot] == None <==>
            forall c :: 0 <= c < |g.cardToSlot| ==> g.cardToSlot[c] != Some(slot)
  {
  }

  /** The grid of one table. */
  class Table {
    /** Mapping between a slot and the card placed in it (None if none). */
    const slotToCard: array<Option<nat>>
    /** Mapping between a card and the slot it is in (None if none). */
    const cardToSlot: array<Option<nat>>
    /** True while the dealer is dealing or clearing the grid. */
    var reshuffle: bool

    ghost function Model(): Grid
      reads slotToCard, cardToSlot
    {
      Grid(slotToCard[..], cardToSlot[..])
    }

    ghost predicate Valid()
      reads slotToCard, cardToSlot
    {
      slotToCard != cardToSlot && Inverse(Model())
    }

    /** `Table(env)`: `tableSize` empty slots and `deckSize` unplaced cards. */
    constructor (tableSize: nat, deckSize: nat)
      ensures Valid() && fresh(slotToCard) && fresh(cardToSlot)
      ensures slotToCard.Length == tableSize && cardToSlot.Length == deckSize
      ensures forall s :: 0 <= s < tableSize ==> slotToCard[s] == None
      ensures forall c :: 0 <= c < deckSize ==> cardToSlot[c] == None
      ensures !reshuffle
    {
      slotToCard := new Option<nat>[tableSize](_ => None);
      cardToSlot := new Option<nat>[deckSize](_ => None);
      reshuffle := false;
    }

    /** `Table(env, slotToCard, cardToSlot)`: a table over two given arrays. */
    constructor FromArrays(slotToCard: array<Option<nat>>, cardToSlot: array<Option<nat>>)
      ensures this.slotToCard == slotToCard && this.cardToSlot == cardToSlot && !reshuffle
    {
      this.slotToCard := slotToCard;
      this.cardToSlot := cardToSlot;
      reshuffle := false;
    }

    /** `countCards`: the number of occupied slots. */
    method CountCards() returns (cards: nat)
      ensures cards == |TableCards(slotToCard[..])|
    {
      cards := 0;
      var i := 0;
      while i < slotToCard.Length
        invariant 0 <= i <= slotToCard.Length
        invariant cards == |TableCards(slotToCard[..i])|
      {
        assert slotToCard[..i + 1][..i] == slotToCard[..i];
        if slotToCard[i] != None {
          cards := cards + 1;
        }
        i := i + 1;
      }
      assert slotToCard[..i] == slotToCard[..];
    }

    /**
     * `placeCard(card, slot)`: both arrays point at each other for this pair.
     * The invariant survives when the slot was empty and the card unplaced, as
     * every caller ensures.
     */
    method PlaceCard(card: nat, slot: nat)
      requires slotToCard != cardToSlot
      requires slot < slotToCard.Length && card < cardToSlot.Length
      modifies slotToCard, cardToSlot
      ensures Model() == Place(old(Model()), card, slot)
      ensures old(Valid()) && old(slotToCard[slot]) == None && old(cardToSlot[card]) == None ==> Valid()
    {
      if Valid() && slotToCard[slot] == None && cardToSlot[card] == None {
        PlaceKeepsInverse(Model(), card, slot);
      }
      cardToSlot[card] := Some(slot);
      slotToCard[slot] := Some(card);
    }

    /** `removeCard(slot)`: an empty slot would fail on unboxing its null card. */
    method RemoveCard(slot: nat)
      requires slotToCard != cardToSlot
      requires slot < slotToCard.Length && slotToCard[slot].Some? && slotToCard[slot].value < cardToSlot.Length
      modifies slotToCard, cardToSlot
      ensures Model() == Remove(old(Model()), slot)
      ensures old(Valid()) ==> Valid()
    {
      if Valid() {
        RemoveKeepsInverse(Model(), slot);
      }
      var card := slotToCard[slot].value;
      slotToCard[slot] := None;
      cardToSlot[card] := None;
    }

    /** `placeToken`: `shown` says whether the token is drawn; neither array changes. */
    method PlaceToken(player: nat, slot: nat) returns (shown: bool)
      requires slot < slotToCard.Length
      ensures shown <==> slotToCard[slot].Some?
    {
      shown := slotToCard[slot] != None;
    }

    /**
     * `removeToken`: true exactly for an occupied slot, whether or not the
     * player had a token there; neither array changes.
     */
    method RemoveToken(player: nat, slot: nat) returns (removed: bool)
      requires slot < slotToCard.Length
      ensures removed <==> slotToCard[slot].Some?
    {
      if slotToCard[slot] == None {
        return false;
      }
      return true;
    }

    /** `getSlotToCardLength`. */
    method GetSlotToCardLength() returns (n: nat)
      ensures n == slotToCard.Length
    {
      n := slotToCard.Length;
    }

    /** `getCard(slot)`: the card in the slot, which under the invariant points back at it. */
    method GetCard(slot: nat) returns (card: Option<nat>)
      requires slot < slotToCard.Length
      ensures card == slotToCard[slot]
      ensures Valid() && card.Some? ==> card.value < cardToSlot.Length && cardToSlot[card.value] == Some(slot)
    {
      card := slotToCard[slot];
    }

    /** `getSlot(card)`: the slot of the card, which under the invariant holds it. */
    method GetSlot(card: nat) returns (slot: Option<nat>)
      requires card < cardToSlot.Length
      ensures slot == cardToSlot[card]
      ensures Valid() && slot.Some? ==> slot.value < slotToCard.Length && slotToCard[slot.value] == Some(card)
    {
      slot := cardToSlot[card];
    }

    /** `getReshuffle`. */
    method GetReshuffle() returns (r: bool)
      ensures r == reshuffle
    {
      r := reshuffle;
    }

    /** `setReshuffle`. */
    method SetReshuffle(toUpdate: bool)
      modifies this`reshuffle
      ensures reshuffle == toUpdate
    {
      reshuffle := toUpdate;
    }

    /** `isSlotEmpty(slot)`: under the invariant, also no card is recorded in that slot. */
    predicate IsSlotEmpty(slot: nat)
      reads slotToCard, cardToSlot
      requires slot < slotToCard.Length
      ensures IsSlotEmpty(slot) <==> slotToCard[slot] == None
      ensures Valid() ==> (IsSlotEmpty(slot) <==>
                forall c :: 0 <= c < cardToSlot.Length ==> cardToSlot[c] != Some(slot))
    {
      assert Valid() ==> (slotToCard[slot] == None <==>
               forall c :: 0 <= c < cardToSlot.Length ==> cardToSlot[c] != Some(slot)) by {
        if Valid() {
          EmptySlotNoCard(Model(), slot);
        }
      }
      slotToCard[slot] == None
    }
  }

  /** Placing a card into an empty slot and removing it again leaves the table as it was. */
  method PlaceThenRemove(t: Table, card: nat, slot: nat)
    requires t.Valid()
    requires slot < t.slotToCard.Length && card < t.cardToSlot.Length
    requires t.slotToCard[slot] == None && t.cardToSlot[card] == None
    modifies t.slotToCard, t.cardToSlot
    ensures t.Valid() && t.Model() == old(t.Model())
  {
    ghost var before := t.Model();
    t.PlaceCard(card, slot);
    t.RemoveCard(slot);
    PlaceRemoveRoundTrip(before, card, slot);
  }
}
