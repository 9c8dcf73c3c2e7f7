/**
 * The rules of the game as functions on values: the token toggle of a player,
 * the dealer's dealing and clearing of the grid, claim verdicts, the claim
 * queue, freeze ageing and the winners. The classes in module Game are proved
 * to follow these functions; the lemmas here state what the functions promise.
 */
module Rules {
  import opened Common
  import opened TableModel

  // ---------------------------------------------------------------- tokens

  /** A player's tokens: at most three, no slot twice, every one a slot of the table. */
  predicate TokensOk(tokens: seq<nat>, slotCount: nat)
  {
    |tokens| <= MaxTokens && Distinct(tokens) &&
    forall k :: 0 <= k < |tokens| ==> tokens[k] < slotCount
  }

  /** The tokens after a key press, and whether the press completed a claim. */
  datatype Toggled = Toggled(tokens: seq<nat>, claimed: bool)

  /**
   * The toggle in `Player.run`: a held slot loses its token; a new slot gains
   * one while fewer than three are held; the third token completes a claim.
   */
  function Toggle(tokens: seq<nat>, slot: nat): Toggled
  {
    if slot in tokens then Toggled(Without(tokens, slot), false)
    else if |tokens| < MaxTokens then Toggled(tokens + [slot], |tokens| + 1 == MaxTokens)
    else Toggled(tokens, false)
  }

  /** A press keeps the token list well formed; it is a claim exactly when it adds the third token. */
  lemma ToggleKeepsTokensOk(tokens: seq<nat>, slot: nat, slotCount: nat)
    requires TokensOk(tokens, slotCount) && slot < slotCount
    ensures TokensOk(Toggle(tokens, slot).tokens, slotCount)
    ensures Toggle(tokens, slot).claimed <==> slot !in tokens && |tokens| == MaxTokens - 1
  {
    if slot in tokens {
      WithoutSpec(tokens, slot);
      WithoutDistinct(tokens, slot);
    } else if |tokens| < MaxTokens {
      var t := tokens + [slot];
      forall i, j | 0 <= i < j < |t| ensures t[i] != t[j] {
        if j == |tokens| {
          assert t[i] in tokens;
        }
      }
    }
  }

  /** What one press does to a well-formed token list: only the pressed slot changes, and it flips unless the player is full. */
  lemma ToggleSpec(tokens: seq<nat>, slot: nat, slotCount: nat)
    requires TokensOk(tokens, slotCount) && slot < slotCount
    ensures TokensOk(Toggle(tokens, slot).tokens, slotCount)
    ensures slot in Toggle(tokens, slot).tokens <==> slot !in tokens && |tokens| < MaxTokens
    ensures forall x :: x != slot ==> (x in Toggle(tokens, slot).tokens <==> x in tokens)
    ensures Toggle(tokens, slot).claimed <==> slot !in tokens && |tokens| == MaxTokens - 1
    ensures Toggle(tokens, slot).claimed ==> |Toggle(tokens, slot).tokens| == MaxTokens
  {
    ToggleKeepsTokensOk(tokens, slot, slotCount);
    if slot in tokens {
      WithoutDistinct(tokens, slot);
    }
  }

  /** Removing the element just appended gives back the list. */
  lemma {:induction false} WithoutAppended(s: seq<nat>, x: nat)
    requires x !in s
    ensures Without(s + [x], x) == s
  {
    if s != [] {
      assert (s + [x])[0] == s[0] && (s + [x])[1..] == s[1..] + [x];
      WithoutAppended(s[1..], x);
    }
  }

  /** Pressing a new slot twice, while fewer than three tokens are held, changes nothing. */
  lemma PressTwice(tokens: seq<nat>, slot: nat)
    requires slot !in tokens && |tokens| < MaxTokens
    ensures Toggle(Toggle(tokens, slot).tokens, slot).tokens == tokens
  {
    WithoutAppended(tokens, slot);
  }

  /** The tokens that survive the removal of the listed slots, in their order. */
  function Strip(tokens: seq<nat>, removed: seq<nat>): seq<nat>
  {
    if tokens == [] then []
    else if tokens[0] in removed then Strip(tokens[1..], removed)
    else [tokens[0]] + Strip(tokens[1..], removed)
  }

  /** Stripping keeps exactly the tokens on slots not removed, no more of them, and no repeats. */
  lemma {:induction false} StripSpec(tokens: seq<nat>, removed: seq<nat>)
    ensures forall y :: y in Strip(tokens, removed) <==> y in tokens && y !in removed
    ensures |Strip(tokens, removed)| <= |tokens|
    ensures Distinct(tokens) ==> Distinct(Strip(tokens, removed))
  {
    if tokens != [] {
      StripSpec(tokens[1..], removed);
      assert tokens == [tokens[0]] + tokens[1..];
      if Distinct(tokens) {
        DistinctTail(tokens);
      }
    }
  }

  /** Stripping slots keeps a token list well formed. */
  lemma StripTokensOk(tokens: seq<nat>, removed: seq<nat>, slotCount: nat)
    requires TokensOk(tokens, slotCount)
    ensures TokensOk(Strip(tokens, removed), slotCount)
  {
    StripSpec(tokens, removed);
    var r := Strip(tokens, removed);
    forall k | 0 <= k < |r| ensures r[k] < slotCount {
      assert r[k] in tokens;
    }
  }

  /** Removing one more slot from a stripped list is stripping one more slot. */
  lemma {:induction false} StripStep(tokens: seq<nat>, removed: seq<nat>, x: nat)
    requires Distinct(tokens)
    ensures Without(Strip(tokens, removed), x) == Strip(tokens, removed + [x])
  {
    if tokens != [] {
      var a, t := tokens[0], tokens[1..];
      DistinctTail(tokens);
      StripStep(t, removed, x);
      var rest := Strip(t, removed);
      if a in removed {
        assert Strip(tokens, removed) == rest;
        assert Strip(tokens, removed + [x]) == Strip(t, removed + [x]);
      } else if a == x {
        StripSpec(t, removed);
        assert Strip(tokens, removed) == [a] + rest;
        assert ([a] + rest)[0] == a && ([a] + rest)[1..] == rest;
        assert Strip(tokens, removed + [x]) == Strip(t, removed + [x]);
        assert x !in rest;
        WithoutSpec(rest, x);
      } else {
        assert Strip(tokens, removed) == [a] + rest;
        assert ([a] + rest)[0] == a && ([a] + rest)[1..] == rest;
        assert Without([a] + rest, x) == [a] + Without(rest, x);
        assert Strip(tokens, removed + [x]) == [a] + Strip(t, removed + [x]);
      }
    }
  }

  /** Stripping nothing keeps every token. */
  lemma {:induction false} StripNothing(tokens: seq<nat>)
    ensures Strip(tokens, []) == tokens
  {
    if tokens != [] {
      StripNothing(tokens[1..]);
    }
  }

  // ---------------------------------------------------------------- claims

  /** The outcome of one claim: neutral release, a point, or a penalty. */
  datatype Verdict = Release | Award | Penalize

  /**
   * `checkSet` on a dequeued claim: a token count other than three releases the
   * player; otherwise the cards under the tokens, in token order, go to the validator.
   */
  function Judge(tokens: seq<nat>, sc: seq<Option<nat>>, testSet: seq<nat> -> bool): Verdict
    requires |tokens| == MaxTokens ==> forall k :: 0 <= k < |tokens| ==> tokens[k] < |sc| && sc[tokens[k]].Some?
  {
    if |tokens| != MaxTokens then Release
    else if testSet(CardsAt(sc, tokens)) then Award
    else Penalize
  }

  /** Steps on the claim queue: a player submits its id, or the dealer resolves one claim. */
  datatype QueueOp = Submit(id: nat) | Resolve

  /** The claims still queued, and the ids resolved so far in the order they were resolved. */
  datatype ClaimLog = ClaimLog(pending: seq<nat>, resolved: seq<nat>)

  /** `playerIdFinishedSet` appends; `checkSet` takes at most the head of the queue. */
  function Step(log: ClaimLog, op: QueueOp): ClaimLog
  {
    match op
    case Submit(id) => ClaimLog(log.pending + [id], log.resolved)
    case Resolve =>
      if log.pending == [] then log
      else ClaimLog(log.pending[1..], log.resolved + [log.pending[0]])
  }

  /** A run of queue steps. */
  function Run(log: ClaimLog, ops: seq<QueueOp>): ClaimLog
    decreases |ops|
  {
    if ops == [] then log else Run(Step(log, ops[0]), ops[1..])
  }

  /** The ids submitted by a run, in submission order. */
  function Submitted(ops: seq<QueueOp>): seq<nat>
  {
    if ops == [] then []
    else (if ops[0].Submit? then [ops[0].id] else []) + Submitted(ops[1..])
  }

  /** Nothing is lost or reordered: resolved then pending is everything, in submission order. */
  lemma {:induction false} RunPreservesOrder(log: ClaimLog, ops: seq<QueueOp>)
    ensures Run(log, ops).resolved + Run(log, ops).pending == log.resolved + log.pending + Submitted(ops)
    decreases |ops|
  {
    if ops != [] {
      RunPreservesOrder(Step(log, ops[0]), ops[1..]);
      if ops[0].Resolve? && log.pending != [] {
        assert log.pending == [log.pending[0]] + log.pending[1..];
      }
    }
  }

  /** FIFO fairness: from an empty queue, the k-th claim resolved is the k-th claim submitted. */
  lemma ClaimsResolvedInSubmissionOrder(ops: seq<QueueOp>)
    ensures var r := Run(ClaimLog([], []), ops).resolved;
            |r| <= |Submitted(ops)| && r == Submitted(ops)[..|r|]
  {
    RunPreservesOrder(ClaimLog([], []), ops);
    var end := Run(ClaimLog([], []), ops);
    assert (end.resolved + end.pending)[..|end.resolved|] == end.resolved;
  }

  // ---------------------------------------------------------------- freeze ageing

  /** `DEALER_TIMEOUT`: the dealer's tick, in milliseconds. */
  const DealerTimeout: nat := 5

  /** `updatePlayersPenalty` for one player: a positive freeze loses one tick, floored at 0. */
  function AgeFreeze(t: int): int
  {
    if t > 0 then (if t - DealerTimeout > 0 then t - DealerTimeout else 0) else t
  }

  /** The freeze after `n` dealer ticks. */
  function AgeTicks(t: int, n: nat): int
  {
    if n == 0 then t else AgeTicks(AgeFreeze(t), n - 1)
  }

  /** A positive freeze falls by one tick per tick and stops at 0; a non-positive one never moves. */
  lemma {:induction false} AgeTicksSpec(t: int, n: nat)
    ensures t <= 0 ==> AgeTicks(t, n) == t
    ensures t > 0 ==> AgeTicks(t, n) == if t - n * DealerTimeout > 0 then t - n * DealerTimeout else 0
  {
    if n > 0 {
      AgeTicksSpec(AgeFreeze(t), n - 1);
    }
  }

  /** The remaining-freeze counter of `t > 0` milliseconds reaches 0 after exactly `t / 5` rounded up ticks. */
  lemma FreezeEnds(t: int)
    requires t > 0
    ensures AgeTicks(t, (t + DealerTimeout - 1) / DealerTimeout) == 0
    ensures AgeTicks(t, (t + DealerTimeout - 1) / DealerTimeout - 1) > 0
  {
    var n := (t + DealerTimeout - 1) / DealerTimeout;
    AgeTicksSpec(t, n);
    AgeTicksSpec(t, n - 1);
  }

  // ---------------------------------------------------------------- countdown

  /** What the countdown display shows: the milliseconds left, and whether it is in the warning colour. */
  datatype Display = Display(millis: int, warn: bool)

  /**
   * `updateTimerDisplay(false)`: the time left before the next reshuffle, less one
   * dealer tick; once that is at most the warning threshold it is shown in
   * warning colour and never below 0.
   */
  function Countdown(reshuffleTime: int, now: int, warningMillis: int): Display
  {
    var left := reshuffleTime - now - DealerTimeout;
    if left > warningMillis then Display(left, false)
    else Display(if left > 0 then left else 0, true)
  }

  /**
   * As the clock advances the countdown never goes up, and once it shows the
   * warning it keeps showing it; it is never negative.
   */
  lemma CountdownMonotone(reshuffleTime: int, now: int, later: int, warningMillis: int)
    requires now <= later && warningMillis >= 0
    ensures Countdown(reshuffleTime, later, warningMillis).millis <= Countdown(reshuffleTime, now, warningMillis).millis
    ensures Countdown(reshuffleTime, now, warningMillis).warn ==> Countdown(reshuffleTime, later, warningMillis).warn
    ensures Countdown(reshuffleTime, later, warningMillis).millis >= 0
  {
  }

  // ---------------------------------------------------------------- winners

  /** The first loop of `announceWinners`: the largest score. */
  function MaxScore(scores: seq<int>): int
    requires |scores| > 0
  {
    if |scores| == 1 then scores[0]
    else
      var m := MaxScore(scores[..|scores| - 1]);
      if scores[|scores| - 1] > m then scores[|scores| - 1] else m
  }

  /** The second loop of `announceWinners`: the ids whose score is `m`, ascending. */
  function ScoredExactly(scores: seq<int>, m: int): seq<nat>
  {
    if scores == [] then []
    else ScoredExactly(scores[..|scores| - 1], m) + (if scores[|scores| - 1] == m then [|scores| - 1] else [])
  }

  /** The winners of a game: every id whose score equals the maximum, in id order. */
  function Winners(scores: seq<int>): seq<nat>
    requires |scores| > 0
  {
    ScoredExactly(scores, MaxScore(scores))
  }

  /** The maximum is one of the scores and no score exceeds it. */
  lemma {:induction false} MaxScoreSpec(scores: seq<int>)
    requires |scores| > 0
    ensures forall i :: 0 <= i < |scores| ==> scores[i] <= MaxScore(scores)
    ensures exists i :: 0 <= i < |scores| && scores[i] == MaxScore(scores)
  {
    if |scores| > 1 {
      var init := scores[..|scores| - 1];
      MaxScoreSpec(init);
      var k :| 0 <= k < |init| && init[k] == MaxScore(init);
      assert scores[k] == init[k];
      forall i | 0 <= i < |scores| - 1 ensures scores[i] <= MaxScore(scores) {
        assert scores[i] == init[i];
      }
      if scores[|scores| - 1] > MaxScore(init) {
        assert scores[|scores| - 1] == MaxScore(scores);
      } else {
        assert scores[k] == MaxScore(scores);
      }
    } else {
      assert scores[0] == MaxScore(scores);
    }
  }

  /** `ScoredExactly` lists exactly the ids with that score, strictly ascending. */
  lemma {:induction false} ScoredExactlySpec(scores: seq<int>, m: int)
    ensures forall x: nat :: x in ScoredExactly(scores, m) <==> x < |scores| && scores[x] == m
    ensures forall i, j :: 0 <= i < j < |ScoredExactly(scores, m)| ==>
              ScoredExactly(scores, m)[i] < ScoredExactly(scores, m)[j]
  {
    if scores != [] {
      var last := |scores| - 1;
      ScoredExactlySpec(scores[..last], m);
      var r := ScoredExactly(scores[..last], m);
      forall k | 0 <= k < |r| ensures r[k] < last {
        assert r[k] in r;
      }
      forall x: nat ensures x in ScoredExactly(scores, m) <==> x < |scores| && scores[x] == m {
        if x < last {
          assert scores[..last][x] == scores[x];
        }
      }
    }
  }

  /** The winners are exactly the players with a score no other player beats; there is at least one. */
  lemma WinnersSpec(scores: seq<int>)
    requires |scores| > 0
    ensures |Winners(scores)| > 0
    ensures forall x: nat :: x in Winners(scores) <==>
              x < |scores| && forall j :: 0 <= j < |scores| ==> scores[j] <= scores[x]
    ensures forall i, j :: 0 <= i < j < |Winners(scores)| ==> Winners(scores)[i] < Winners(scores)[j]
  {
    MaxScoreSpec(scores);
    ScoredExactlySpec(scores, MaxScore(scores));
    var k :| 0 <= k < |scores| && scores[k] == MaxScore(scores);
    assert k in Winners(scores);
  }

  /** Scores 3, 5, 7 give the single winner 2; scores 5, 7, 7 give winners 1 and 2. */
  lemma WinnersExamples()
    ensures Winners([3, 5, 7]) == [2]
    ensures Winners([5, 7, 7]) == [1, 2]
  {
    assert [3, 5, 7][..2] == [3, 5] && [3, 5][..1] == [3];
    assert MaxScore([3, 5, 7]) == 7;
    assert ScoredExactly([3], 7) == [] && ScoredExactly([3, 5], 7) == [];
    assert [5, 7, 7][..2] == [5, 7] && [5, 7][..1] == [5];
    assert MaxScore([5, 7, 7]) == 7;
    assert ScoredExactly([5], 7) == [] && ScoredExactly([5, 7], 7) == [1];
  }

  // ---------------------------------------------------------------- dealing and clearing

  /** The grid and the dealer's deck. */
  datatype Layout = Layout(grid: Grid, deck: seq<nat>)

  /** The deck holds each card once, and none of its cards is on the table. */
  ghost predicate DeckOk(g: Grid, deck: seq<nat>)
  {
    Distinct(deck) &&
    forall k :: 0 <= k < |deck| ==> deck[k] < |g.cardToSlot| && g.cardToSlot[deck[k]] == None
  }

  /** Every listed slot is a slot of the grid. */
  predicate SlotsInRange(slots: seq<nat>, g: Grid)
  {
    forall k :: 0 <= k < |slots| ==> slots[k] < |g.slotToCard|
  }

  /** Every listed card is a card of the grid. */
  predicate CardsInRange(cards: seq<nat>, g: Grid)
  {
    forall k :: 0 <= k < |cards| ==> cards[k] < |g.cardToSlot|
  }

  /** Every listed slot holds a card of the grid. */
  predicate Occupied(slots: seq<nat>, g: Grid)
  {
    forall k :: 0 <= k < |slots| ==>
      slots[k] < |g.slotToCard| && g.slotToCard[slots[k]].Some? &&
      g.slotToCard[slots[k]].value < |g.cardToSlot|
  }

  /** Every listed slot is an empty slot of the grid. */
  predicate Vacant(slots: seq<nat>, g: Grid)
  {
    forall k :: 0 <= k < |slots| ==> slots[k] < |g.slotToCard| && g.slotToCard[slots[k]] == None
  }

  /** The second loop of `placeCardsOnTable`: the head of the deck goes to each listed slot in turn. */
  function Deal(g: Grid, deck: seq<nat>, slots: seq<nat>): (r: Layout)
    requires SlotsInRange(slots, g) && CardsInRange(deck, g)
    ensures |r.grid.slotToCard| == |g.slotToCard| && |r.grid.cardToSlot| == |g.cardToSlot|
    ensures |r.deck| <= |deck|
    decreases |slots|
  {
    if slots == [] || deck == [] then Layout(g, deck)
    else Deal(Place(g, deck[0], slots[0]), deck[1..], slots[1..])
  }

  /** The number of cards `Deal` places: one per slot while the deck lasts. */
  function Dealt(deck: seq<nat>, slots: seq<nat>): nat
  {
    if |slots| < |deck| then |slots| else |deck|
  }

  /** Dealing distinct empty slots from a valid deck keeps the grid inverse and the deck valid. */
  lemma {:induction false} DealKeepsInvariant(g: Grid, deck: seq<nat>, slots: seq<nat>)
    requires Inverse(g) && DeckOk(g, deck) && Distinct(slots) && Vacant(slots, g)
    ensures Inverse(Deal(g, deck, slots).grid) && DeckOk(Deal(g, deck, slots).grid, Deal(g, deck, slots).deck)
    ensures |Deal(g, deck, slots).grid.slotToCard| == |g.slotToCard|
    ensures |Deal(g, deck, slots).grid.cardToSlot| == |g.cardToSlot|
    decreases |slots|
  {
    if slots != [] && deck != [] {
      var g' := Place(g, deck[0], slots[0]);
      PlaceKeepsInverse(g, deck[0], slots[0]);
      DistinctTail(deck);
      assert DeckOk(g', deck[1..]) by {
        forall k | 0 <= k < |deck| - 1 ensures deck[1..][k] != deck[0] {
          assert deck[1..][k] in deck[1..];
        }
      }
      VacantAfterPlace(g, deck[0], slots);
      DealKeepsInvariant(g', deck[1..], slots[1..]);
    }
  }

  /** Where the cards go: the `j`-th listed slot gets the `j`-th card, the deck loses its first cards, nothing else moves. */
  lemma {:induction false} DealEffect(g: Grid, deck: seq<nat>, slots: seq<nat>)
    requires SlotsInRange(slots, g) && CardsInRange(deck, g) && Distinct(slots)
    ensures Deal(g, deck, slots).deck == deck[Dealt(deck, slots)..]
    ensures |Deal(g, deck, slots).grid.slotToCard| == |g.slotToCard|
    ensures forall j :: 0 <= j < Dealt(deck, slots) ==>
              Deal(g, deck, slots).grid.slotToCard[slots[j]] == Some(deck[j])
    ensures forall s :: 0 <= s < |g.slotToCard| && s !in slots[..Dealt(deck, slots)] ==>
              Deal(g, deck, slots).grid.slotToCard[s] == g.slotToCard[s]
    decreases |slots|
  {
    if slots != [] && deck != [] {
      var g' := Place(g, deck[0], slots[0]);
      DistinctTail(slots);
      DealEffect(g', deck[1..], slots[1..]);
      var n := Dealt(deck, slots);
      assert Dealt(deck[1..], slots[1..]) == n - 1;
      var r := Deal(g, deck, slots);
      forall j | 0 <= j < n ensures r.grid.slotToCard[slots[j]] == Some(deck[j]) {
        if j > 0 {
          assert slots[1..][j - 1] == slots[j] && deck[1..][j - 1] == deck[j];
        } else {
          assert slots[0] !in slots[1..][..n - 1];
        }
      }
      forall s | 0 <= s < |g.slotToCard| && s !in slots[..n]
        ensures r.grid.slotToCard[s] == g.slotToCard[s]
      {
        assert slots[..n] == [slots[0]] + slots[1..][..n - 1];
      }
    }
  }

  /** Dealing `Dealt` cards adds that many cards to the table and takes them from the deck: no card appears or vanishes. */
  lemma {:induction false} DealConserves(g: Grid, deck: seq<nat>, slots: seq<nat>)
    requires Distinct(slots) && Vacant(slots, g) && CardsInRange(deck, g)
    ensures multiset(Deal(g, deck, slots).deck) + multiset(TableCards(Deal(g, deck, slots).grid.slotToCard)) ==
            multiset(deck) + multiset(TableCards(g.slotToCard))
    decreases |slots|
  {
    if slots != [] && deck != [] {
      var g' := Place(g, deck[0], slots[0]);
      VacantAfterPlace(g, deck[0], slots);
      DealConserves(g', deck[1..], slots[1..]);
      var r := Deal(g', deck[1..], slots[1..]);
      assert Deal(g, deck, slots) == r;
      TableCardsUpdate(g.slotToCard, slots[0], Some(deck[0]));
      var before, mid := TableCards(g.slotToCard), TableCards(g'.slotToCard);
      assert multiset(mid) == multiset(before) + multiset{deck[0]};
      assert deck == [deck[0]] + deck[1..];
      assert multiset(deck) == multiset{deck[0]} + multiset(deck[1..]);
    }
  }

  /** One round of the dealing loop: the first slot takes the head of the deck, if any; the rest is dealt as before. */
  lemma DealStep(g: Grid, deck: seq<nat>, slots: seq<nat>)
    requires Inverse(g) && DeckOk(g, deck) && Vacant(slots, g) && Distinct(slots) && slots != []
    ensures deck == [] ==> Deal(g, deck, slots) == Deal(g, deck, slots[1..]) == Layout(g, deck)
    ensures deck != [] ==>
              var g' := Place(g, deck[0], slots[0]);
              Inverse(g') && DeckOk(g', deck[1..]) && Vacant(slots[1..], g') && Distinct(slots[1..]) &&
              Deal(g, deck, slots) == Deal(g', deck[1..], slots[1..])
  {
    if deck != [] {
      PlaceKeepsInverse(g, deck[0], slots[0]);
      VacantAfterPlace(g, deck[0], slots);
      DistinctTail(deck);
      assert DeckOk(Place(g, deck[0], slots[0]), deck[1..]) by {
        forall k | 0 <= k < |deck| - 1 ensures deck[1..][k] != deck[0] {
          assert deck[1..][k] in deck[1..];
        }
      }
    } else {
      DistinctTail(slots);
    }
  }

  /** Dealing puts exactly `Dealt` more cards on the table. */
  lemma DealCount(g: Grid, deck: seq<nat>, slots: seq<nat>)
    requires Distinct(slots) && Vacant(slots, g) && CardsInRange(deck, g)
    ensures |TableCards(Deal(g, deck, slots).grid.slotToCard)| == |TableCards(g.slotToCard)| + Dealt(deck, slots)
  {
    DealConserves(g, deck, slots);
    DealEffect(g, deck, slots);
    var r := Deal(g, deck, slots);
    assert |multiset(r.deck) + multiset(TableCards(r.grid.slotToCard))| ==
           |multiset(deck) + multiset(TableCards(g.slotToCard))|;
  }

  /**
   * `placeCardsOnTable` deals into a permutation of all empty slots, so afterwards
   * either no slot is empty or the deck is exhausted.
   */
  lemma DealFills(g: Grid, deck: seq<nat>, slots: seq<nat>)
    requires multiset(slots) == multiset(SlotsWith(g.slotToCard, false))
    requires CardsInRange(deck, g)
    ensures SlotsInRange(slots, g) && Distinct(slots)
    ensures Deal(g, deck, slots).deck == [] ||
            forall s :: 0 <= s < |g.slotToCard| ==> Deal(g, deck, slots).grid.slotToCard[s].Some?
  {
    SlotsWithSpec(g.slotToCard, false);
    SlotsWithDistinct(g.slotToCard, false);
    DistinctMultiset(SlotsWith(g.slotToCard, false));
    DistinctMultiset(slots);
    forall k | 0 <= k < |slots| ensures slots[k] < |g.slotToCard| {
      assert slots[k] in multiset(SlotsWith(g.slotToCard, false));
      assert slots[k] in SlotsWith(g.slotToCard, false);
    }
    DealEffect(g, deck, slots);
    var r := Deal(g, deck, slots);
    if |slots| <= |deck| {
      forall s | 0 <= s < |g.slotToCard| ensures r.grid.slotToCard[s].Some? {
        if g.slotToCard[s] == None {
          assert s in multiset(SlotsWith(g.slotToCard, false));
          var j :| 0 <= j < |slots| && slots[j] == s;
          assert r.grid.slotToCard[slots[j]] == Some(deck[j]);
        } else {
          assert s !in SlotsWith(g.slotToCard, false);
          assert s !in multiset(slots);
        }
      }
    }
  }

  /** The second loop of `removeCardsFromTable`: each listed slot is emptied in turn. */
  function Discard(g: Grid, slots: seq<nat>): (r: Grid)
    requires Occupied(slots, g) && Distinct(slots)
    ensures |r.slotToCard| == |g.slotToCard| && |r.cardToSlot| == |g.cardToSlot|
    decreases |slots|
  {
    if slots == [] then g
    else
      OccupiedAfterRemove(g, slots);
      Discard(Remove(g, slots[0]), slots[1..])
  }

  /** After the first listed slot is emptied, the other listed slots are still occupied. */
  lemma OccupiedAfterRemove(g: Grid, slots: seq<nat>)
    requires Occupied(slots, g) && Distinct(slots) && slots != []
    ensures Occupied(slots[1..], Remove(g, slots[0])) && Distinct(slots[1..]) && slots[0] !in slots[1..]
  {
    DistinctTail(slots);
    var g' := Remove(g, slots[0]);
    forall k | 0 <= k < |slots| - 1
      ensures slots[1..][k] < |g'.slotToCard| && g'.slotToCard[slots[1..][k]] == g.slotToCard[slots[1..][k]]
    {
      assert slots[1..][k] in slots[1..];
    }
  }

  /** After the first listed slot is filled, the other listed slots are still empty. */
  lemma VacantAfterPlace(g: Grid, card: nat, slots: seq<nat>)
    requires Vacant(slots, g) && Distinct(slots) && slots != [] && card < |g.cardToSlot|
    ensures Vacant(slots[1..], Place(g, card, slots[0])) && Distinct(slots[1..]) && slots[0] !in slots[1..]
  {
    DistinctTail(slots);
    var g' := Place(g, card, slots[0]);
    forall k | 0 <= k < |slots| - 1
      ensures slots[1..][k] < |g'.slotToCard| && g'.slotToCard[slots[1..][k]] == g.slotToCard[slots[1..][k]]
    {
      assert slots[1..][k] in slots[1..];
    }
  }

  /** `removeAllCardsFromTable`: each listed slot's card is appended to the deck and the slot emptied. */
  function Collect(g: Grid, deck: seq<nat>, slots: seq<nat>): Layout
    requires Occupied(slots, g) && Distinct(slots)
  {
    Layout(Discard(g, slots), deck + CardsAt(g.slotToCard, slots))
  }

  /** One round of the collecting loop: the first slot's card goes to the end of the deck and the slot is emptied. */
  lemma CollectStep(g: Grid, deck: seq<nat>, slots: seq<nat>)
    requires Occupied(slots, g) && Distinct(slots) && slots != []
    ensures Occupied(slots[1..], Remove(g, slots[0])) && Distinct(slots[1..])
    ensures Collect(g, deck, slots) ==
            Collect(Remove(g, slots[0]), deck + [g.slotToCard[slots[0]].value], slots[1..])
  {
    CardsAtAfterRemove(g, slots);
    var g', c := Remove(g, slots[0]), g.slotToCard[slots[0]].value;
    var cards := CardsAt(g.slotToCard, slots);
    assert cards == [c] + CardsAt(g'.slotToCard, slots[1..]);
    assert deck + cards == (deck + [c]) + CardsAt(g'.slotToCard, slots[1..]);
  }

  /** Distinct occupied slots hold distinct cards that are placed, hence not in a valid deck. */
  lemma CardsAtFresh(g: Grid, deck: seq<nat>, slots: seq<nat>)
    requires Inverse(g) && DeckOk(g, deck) && Occupied(slots, g) && Distinct(slots)
    ensures Distinct(deck + CardsAt(g.slotToCard, slots))
  {
    var cards := CardsAt(g.slotToCard, slots);
    var all := deck + cards;
    forall i, j | 0 <= i < j < |all| ensures all[i] != all[j] {
      if j >= |deck| && i >= |deck| {
        assert g.cardToSlot[cards[i - |deck|]] == Some(slots[i - |deck|]);
        assert g.cardToSlot[cards[j - |deck|]] == Some(slots[j - |deck|]);
      } else if j >= |deck| {
        assert g.cardToSlot[cards[j - |deck|]] == Some(slots[j - |deck|]);
      }
    }
  }

  /** Emptying distinct occupied slots: they become empty, their cards unplaced, the rest stays, the invariant holds. */
  lemma {:induction false} DiscardEffect(g: Grid, slots: seq<nat>)
    requires Inverse(g) && Occupied(slots, g) && Distinct(slots)
    ensures Inverse(Discard(g, slots))
    ensures |Discard(g, slots).slotToCard| == |g.slotToCard| && |Discard(g, slots).cardToSlot| == |g.cardToSlot|
    ensures forall s :: 0 <= s < |g.slotToCard| ==>
              Discard(g, slots).slotToCard[s] == if s in slots then None else g.slotToCard[s]
    ensures forall c :: 0 <= c < |g.cardToSlot| ==>
              Discard(g, slots).cardToSlot[c] ==
                if g.cardToSlot[c].Some? && g.cardToSlot[c].value in slots then None else g.cardToSlot[c]
    decreases |slots|
  {
    if slots != [] {
      var g' := Remove(g, slots[0]);
      RemoveKeepsInverse(g, slots[0]);
      OccupiedAfterRemove(g, slots);
      DiscardEffect(g', slots[1..]);
      assert forall s :: s in slots <==> s == slots[0] || s in slots[1..];
    }
  }

  /** Emptying distinct occupied slots takes exactly their cards off the table. */
  lemma {:induction false} DiscardConserves(g: Grid, slots: seq<nat>)
    requires Occupied(slots, g) && Distinct(slots)
    ensures multiset(TableCards(Discard(g, slots).slotToCard)) + multiset(CardsAt(g.slotToCard, slots)) ==
            multiset(TableCards(g.slotToCard))
    decreases |slots|
  {
    if slots != [] {
      var g' := Remove(g, slots[0]);
      OccupiedAfterRemove(g, slots);
      DiscardConserves(g', slots[1..]);
      assert Discard(g, slots) == Discard(g', slots[1..]);
      TableCardsUpdate(g.slotToCard, slots[0], None);
      var c := g.slotToCard[slots[0]].value;
      var before, mid := TableCards(g.slotToCard), TableCards(g'.slotToCard);
      assert multiset(mid) + multiset{c} == multiset(before);
      CardsAtAfterRemove(g, slots);
      var cards := CardsAt(g.slotToCard, slots);
      assert cards == [c] + cards[1..];
      assert multiset(cards) == multiset{c} + multiset(cards[1..]);
    }
  }

  /** Emptying the first listed slot leaves the cards of the other listed slots as they were. */
  lemma CardsAtAfterRemove(g: Grid, slots: seq<nat>)
    requires Occupied(slots, g) && Distinct(slots) && slots != []
    ensures Occupied(slots[1..], Remove(g, slots[0]))
    ensures CardsAt(Remove(g, slots[0]).slotToCard, slots[1..]) == CardsAt(g.slotToCard, slots)[1..]
  {
    OccupiedAfterRemove(g, slots);
    var g' := Remove(g, slots[0]);
    forall k | 0 <= k < |slots| - 1 ensures g'.slotToCard[slots[1..][k]] == g.slotToCard[slots[k + 1]] {
      assert slots[1..][k] == slots[k + 1];
    }
  }

  /** Emptying distinct occupied slots lowers the card count by their number. */
  lemma DiscardCount(g: Grid, slots: seq<nat>)
    requires Occupied(slots, g) && Distinct(slots)
    ensures |TableCards(Discard(g, slots).slotToCard)| == |TableCards(g.slotToCard)| - |slots|
  {
    DiscardConserves(g, slots);
    var after := TableCards(Discard(g, slots).slotToCard);
    assert |multiset(after) + multiset(CardsAt(g.slotToCard, slots))| == |multiset(TableCards(g.slotToCard))|;
  }

  /** A permutation of the empty (or occupied) slots lists each such slot exactly once. */
  lemma PermutationOfSlots(g: Grid, slots: seq<nat>, occupied: bool)
    requires multiset(slots) == multiset(SlotsWith(g.slotToCard, occupied))
    ensures Distinct(slots)
    ensures forall s: nat :: s in slots <==> s < |g.slotToCard| && g.slotToCard[s].Some? == occupied
    ensures forall k :: 0 <= k < |slots| ==> slots[k] < |g.slotToCard| && g.slotToCard[slots[k]].Some? == occupied
    ensures Inverse(g) && occupied ==> Occupied(slots, g)
    ensures !occupied ==> Vacant(slots, g)
  {
    SlotsWithSpec(g.slotToCard, occupied);
    SlotsWithDistinct(g.slotToCard, occupied);
    DistinctMultiset(SlotsWith(g.slotToCard, occupied));
    DistinctMultiset(slots);
    forall s: nat ensures s in slots <==> s < |g.slotToCard| && g.slotToCard[s].Some? == occupied {
      assert s in slots <==> s in multiset(slots);
      assert s in SlotsWith(g.slotToCard, occupied) <==> s in multiset(SlotsWith(g.slotToCard, occupied));
    }
    forall k | 0 <= k < |slots| ensures slots[k] < |g.slotToCard| && g.slotToCard[slots[k]].Some? == occupied {
      assert slots[k] in slots;
    }
  }

  /**
   * `removeAllCardsFromTable` over a permutation of the occupied slots empties
   * every slot and unplaces every card.
   */
  lemma CollectClears(g: Grid, deck: seq<nat>, slots: seq<nat>)
    requires Inverse(g)
    requires multiset(slots) == multiset(SlotsWith(g.slotToCard, true))
    ensures Occupied(slots, g) && Distinct(slots)
    ensures Inverse(Collect(g, deck, slots).grid)
    ensures forall s :: 0 <= s < |g.slotToCard| ==> Collect(g, deck, slots).grid.slotToCard[s] == None
    ensures forall c :: 0 <= c < |g.cardToSlot| ==> Collect(g, deck, slots).grid.cardToSlot[c] == None
  {
    PermutationOfSlots(g, slots, true);
    DiscardEffect(g, slots);
  }

  /**
   * ... and returns every card to the end of the deck: the deck stays valid and
   * holds exactly the cards of the old deck and the old table.
   */
  lemma CollectReturnsCards(g: Grid, deck: seq<nat>, slots: seq<nat>)
    requires Inverse(g) && DeckOk(g, deck)
    requires multiset(slots) == multiset(SlotsWith(g.slotToCard, true))
    ensures Occupied(slots, g) && Distinct(slots)
    ensures DeckOk(Collect(g, deck, slots).grid, Collect(g, deck, slots).deck)
    ensures multiset(Collect(g, deck, slots).deck) == multiset(deck) + multiset(TableCards(g.slotToCard))
  {
    assert Occupied(slots, g) && Distinct(slots) by {
      PermutationOfSlots(g, slots, true);
    }
    var d, cards := Discard(g, slots), CardsAt(g.slotToCard, slots);
    assert Collect(g, deck, slots) == Layout(d, deck + cards);
    assert Distinct(deck + cards) by {
      CardsAtFresh(g, deck, slots);
    }
    assert forall c :: 0 <= c < |d.cardToSlot| ==> d.cardToSlot[c] == None by {
      CollectClears(g, deck, slots);
    }
    assert multiset(cards) == multiset(TableCards(g.slotToCard)) by {
      CollectClears(g, deck, slots);
      DiscardConserves(g, slots);
      EmptyTableHasNoCards(d.slotToCard);
    }
    assert multiset(deck + cards) == multiset(deck) + multiset(cards);
    var all := deck + cards;
    forall k | 0 <= k < |all| ensures all[k] < |d.cardToSlot| && d.cardToSlot[all[k]] == None {
      if k >= |deck| {
        assert all[k] == g.slotToCard[slots[k - |deck|]].value;
      }
    }
  }

  /** A grid with every slot empty has no cards on it. */
  lemma {:induction false} EmptyTableHasNoCards(sc: seq<Option<nat>>)
    requires forall s :: 0 <= s < |sc| ==> sc[s] == None
    ensures TableCards(sc) == []
  {
    if sc != [] {
      EmptyTableHasNoCards(sc[..|sc| - 1]);
    }
  }
}
