/**
 * cards/language.py: the sequencing interpreter.
 *
 * A run executes the steps in list order. Each step names an action and an optional command
 * that must appear in the action table, and is dispatched to the action's handler. The handler's
 * result is stored in a ledger under the step's 1-based position. The handlers start a deck,
 * pick cards from the deck held by the interpreter, and compare a previously picked list of cards
 * against criteria. The three comparison rules are methods proved against functions (AnyMatchResult,
 * AllMatchFrom, OrderMatchFrom) whose meaning is characterised by lemmas.
 */
module Language {

  import opened Exceptions
  import opened Seqs
  import opened Constants
  import opened Models

  // ---------------------------------------------------------------------------------------------
  // Steps and the action table

  /** ACTIONS_AND_COMMANDS: each action with the commands it accepts. */
  const ACTIONS_AND_COMMANDS: map<string, seq<string>> := map[
    "start_with" := ["standard_deck", "standard_deck_with_jokers", "canasta_deck", "empty_deck"],
    "shuffle" := ["all_deck"],
    "reset" := [],
    "pick" := ["random_cards", "specific_cards"],
    "insert" := ["specific_picked_card", "random_picked_cards"],
    "insert_force" := ["specific_picked_card", "random_picked_cards", "specific_card", "random_card", "joker"],
    "compare_picked" := ["all_match", "any_match", "order_match"]]

  /** The actions that have an `action_<name>` handler. */
  const HANDLED_ACTIONS: set<string> := {"start_with", "pick", "compare_picked"}

  /** A step's `meta`: the keyword arguments passed to the handler; `None` is an absent key. */
  datatype Meta = Meta(
    count: Option<int>,
    specificCards: Option<seq<Card>>,
    colours: Option<seq<string>>,
    suits: Option<seq<Key>>,
    cards: Option<seq<Card>>,
    values: Option<seq<Key>>,
    fromSequence: Option<int>,
    matchesRequired: Option<int>)

  const NO_META: Meta := Meta(None, None, None, None, None, None, None, None)

  /** One entry of the sequence: `{"action": ..., "command": ..., "meta": {...}}`. */
  datatype Step = Step(action: string, command: Option<string>, meta: Meta)

  /** What a handler returns and the ledger stores. A deck is stored by reference. */
  datatype StepResult = NoneResult | DeckResult(deck: Deck) | CardsResult(cards: seq<Card>) | BoolResult(b: bool)

  /** Python truthiness of the command: present and non-empty. */
  predicate Truthy(command: Option<string>)
  {
    command.Some? && command.value != ""
  }

  /** The two checks of `execute_sequence`, in order: the action, then a truthy command. */
  function Validate(action: string, command: Option<string>): Option<Error>
  {
    if action !in ACTIONS_AND_COMMANDS then Some(UnsupportedAction)
    else if Truthy(command) && command.value !in ACTIONS_AND_COMMANDS[action] then Some(UnsupportedCommand)
    else None
  }

  /** An action passes validation exactly when it is in the table and a truthy command is listed under it. */
  lemma ValidateAccepts(action: string, command: Option<string>)
    ensures Validate(action, command) == None <==>
      action in ACTIONS_AND_COMMANDS && (!Truthy(command) || command.value in ACTIONS_AND_COMMANDS[action])
    ensures Validate(action, command) == Some(UnsupportedAction) <==> action !in ACTIONS_AND_COMMANDS
    ensures !Truthy(command) && action in ACTIONS_AND_COMMANDS ==> Validate(action, command) == None
  {
  }

  /** Four table actions pass validation but have no handler, and `reset` accepts no command at all. */
  lemma UnhandledActions()
    ensures ACTIONS_AND_COMMANDS.Keys - HANDLED_ACTIONS == {"shuffle", "reset", "insert", "insert_force"}
    ensures HANDLED_ACTIONS <= ACTIONS_AND_COMMANDS.Keys
    ensures forall c :: Truthy(c) ==> Validate("reset", c) == Some(UnsupportedCommand)
  {
  }

  /** Whether the handler of `action` takes every keyword present in `meta`. */
  predicate Accepts(action: string, meta: Meta)
  {
    if action == "start_with" then meta == NO_META
    else if action == "pick" then
      && meta.colours.None? && meta.suits.None? && meta.cards.None? && meta.values.None?
      && meta.fromSequence.None? && meta.matchesRequired.None?
    else if action == "compare_picked" then meta.count.None? && meta.specificCards.None?
    else true
  }

  /** `count=1` default of `action_pick`. */
  function CountOf(meta: Meta): int
  {
    if meta.count.Some? then meta.count.value else 1
  }

  /** `specific_cards or []`. */
  function SpecificOf(meta: Meta): seq<Card>
  {
    if meta.specificCards.Some? then meta.specificCards.value else []
  }

  /** How many random draws a step may consume. */
  function DrawsNeeded(meta: Meta): nat
  {
    RangeLength(CountOf(meta))
  }

  /** The commands of `start_with` that build a deck. */
  predicate StartsDeck(command: Option<string>)
  {
    command.Some? && command.value in ACTIONS_AND_COMMANDS["start_with"]
  }

  // ---------------------------------------------------------------------------------------------
  // pick: specific cards

  /** Puts already picked cards in front of a later outcome. */
  function Prepend(picked: seq<Card>, outcome: Result<seq<Card>>): Result<seq<Card>>
  {
    if outcome.Ok? then Ok(picked + outcome.value) else outcome
  }

  /**
   * `pick` with `specific_cards`: `pick_card` for each request in order; the first absent card
   * stops the step, and the cards picked before it stay out of the deck. (outcome, deck after).
   */
  function PickSpecific(cards: seq<Card>, requested: seq<Card>): (Result<seq<Card>>, seq<Card>)
  {
    if requested == [] then (Ok([]), cards)
    else if requested[0] !in cards then (Err(CardIsNotInTheDeck), cards)
    else
      var after := PickSpecific(RemoveFirst(cards, requested[0]), requested[1..]);
      (Prepend([requested[0]], after.0), after.1)
  }

  /** Adding the same element to both sides does not change containment. */
  lemma SubMultisetCancel<T>(a: multiset<T>, b: multiset<T>, x: T)
    ensures a + multiset{x} <= b + multiset{x} <==> a <= b
  {
    if a + multiset{x} <= b + multiset{x} {
      forall y | y in a
        ensures a[y] <= b[y]
      {
        assert (a + multiset{x})[y] <= (b + multiset{x})[y];
      }
    }
  }

  lemma PrependEmpty(outcome: Result<seq<Card>>)
    ensures Prepend([], outcome) == outcome
  {
    if outcome.Ok? {
      assert [] + outcome.value == outcome.value;
    }
  }

  lemma PrependTwice(first: seq<Card>, second: seq<Card>, outcome: Result<seq<Card>>)
    ensures Prepend(first, Prepend(second, outcome)) == Prepend(first + second, outcome)
  {
    if outcome.Ok? {
      assert first + (second + outcome.value) == (first + second) + outcome.value;
    }
  }

  /**
   * Picking specific cards succeeds exactly when the deck holds every requested card as often as
   * requested; it then returns the requests and removes exactly them from the deck.
   */
  lemma {:induction false} PickSpecificSucceeds(cards: seq<Card>, requested: seq<Card>)
    ensures PickSpecific(cards, requested).0.Ok? <==> multiset(requested) <= multiset(cards)
    ensures PickSpecific(cards, requested).0.Ok? ==>
      && PickSpecific(cards, requested).0.value == requested
      && multiset(cards) == multiset(PickSpecific(cards, requested).1) + multiset(requested)
  {
    if requested != [] {
      var x := requested[0];
      var tail := requested[1..];
      assert requested == [x] + tail;
      assert multiset(requested) == multiset{x} + multiset(tail);
      if x !in cards {
        assert multiset(requested)[x] > multiset(cards)[x];
      } else {
        var rest := RemoveFirst(cards, x);
        MultisetRemoveFirst(cards, x);
        PickSpecificSucceeds(rest, tail);
        SubMultisetCancel(multiset(tail), multiset(rest), x);
        var after := PickSpecific(rest, tail);
        assert PickSpecific(cards, requested) == (Prepend([x], after.0), after.1);
      }
    }
  }

  /**
   * A failed pick of specific cards reports CardIsNotInTheDeck, after removing some prefix of the
   * requests from the deck; the next request is absent from what remained.
   */
  lemma {:induction false} PickSpecificFails(cards: seq<Card>, requested: seq<Card>)
    requires PickSpecific(cards, requested).0.Err?
    ensures PickSpecific(cards, requested).0.error == CardIsNotInTheDeck
    ensures exists i ::
      && 0 <= i < |requested|
      && multiset(cards) == multiset(PickSpecific(cards, requested).1) + multiset(requested[..i])
      && requested[i] !in PickSpecific(cards, requested).1
  {
    var x := requested[0];
    var tail := requested[1..];
    var outcome := PickSpecific(cards, requested);
    if x !in cards {
      assert requested[..0] == [];
      assert outcome.1 == cards;
    } else {
      var rest := RemoveFirst(cards, x);
      var after := PickSpecific(rest, tail);
      PickSpecificStep(cards, requested);
      assert after.0.Err? && outcome == after;
      MultisetRemoveFirst(cards, x);
      PickSpecificFails(rest, tail);
      var i :| 0 <= i < |tail| && multiset(rest) == multiset(after.1) + multiset(tail[..i]) && tail[i] !in after.1;
      PrefixMultiset(requested, i);
      assert requested[i + 1] == tail[i];
    }
  }

  /** The first request is present: it is picked and the rest of the requests follow. */
  lemma PickSpecificStep(cards: seq<Card>, requested: seq<Card>)
    requires requested != [] && requested[0] in cards
    ensures PickSpecific(cards, requested) ==
      (Prepend([requested[0]], PickSpecific(RemoveFirst(cards, requested[0]), requested[1..]).0),
       PickSpecific(RemoveFirst(cards, requested[0]), requested[1..]).1)
  {
  }

  lemma PrefixMultiset(s: seq<Card>, i: nat)
    requires i < |s|
    ensures multiset(s[..i + 1]) == multiset{s[0]} + multiset(s[1..][..i])
  {
    assert s[..i + 1] == [s[0]] + s[1..][..i];
  }

  // ---------------------------------------------------------------------------------------------
  // compare_picked: the three matching rules

  /** The criterion lists of `compare_picked`; an absent list behaves like an empty one. */
  datatype Criteria = Criteria(colours: seq<string>, values: seq<Key>, cards: seq<Card>, suits: seq<Key>)

  function CriteriaOf(meta: Meta): Criteria
  {
    Criteria(
      if meta.colours.Some? then meta.colours.value else [],
      if meta.values.Some? then meta.values.value else [],
      if meta.cards.Some? then meta.cards.value else [],
      if meta.suits.Some? then meta.suits.value else [])
  }

  /** The criterion a card is checked against: the first non-empty list, colours > values > cards > suits. */
  datatype Rule = ByColour(colours: seq<string>) | ByValue(values: seq<Key>) | ByCard(cards: seq<Card>) | BySuit(suits: seq<Key>) | NoRule

  function Active(crit: Criteria): Rule
  {
    if crit.colours != [] then ByColour(crit.colours)
    else if crit.values != [] then ByValue(crit.values)
    else if crit.cards != [] then ByCard(crit.cards)
    else if crit.suits != [] then BySuit(crit.suits)
    else NoRule
  }

  /** Checking a card against the rule does not need a colour lookup that would fail. */
  predicate CanLookUp(card: Card, rule: Rule)
  {
    rule.ByColour? ==> IsSuitKey(card.suit)
  }

  predicate Lookable(picked: seq<Card>, rule: Rule)
  {
    forall i :: 0 <= i < |picked| ==> CanLookUp(picked[i], rule)
  }

  /** What one picked card adds to `matches` in any_match; the card rule adds one per same card required. */
  function Weight(card: Card, rule: Rule): nat
    requires CanLookUp(card, rule)
  {
    match rule
    case ByColour(colours) => if Colour(card) in colours then 1 else 0
    case ByValue(values) => if card.value in values then 1 else 0
    case ByCard(cards) => multiset(cards)[card]
    case BySuit(suits) => if card.suit in suits then 1 else 0
    case NoRule => 0
  }

  function MatchCount(picked: seq<Card>, rule: Rule): nat
    requires Lookable(picked, rule)
  {
    if picked == [] then 0
    else MatchCount(picked[..|picked| - 1], rule) + Weight(picked[|picked| - 1], rule)
  }

  /** `any_match`: the count of matches reaches `matches_required`, or a colour lookup fails. */
  function AnyMatchResult(picked: seq<Card>, crit: Criteria, matchesRequired: int): Result<bool>
  {
    var rule := Active(crit);
    if !Lookable(picked, rule) then Err(UnknownSuit)
    else Ok(matchesRequired <= MatchCount(picked, rule))
  }

  lemma {:induction false} MatchCountAppend(p: seq<Card>, q: seq<Card>, rule: Rule)
    requires Lookable(p, rule) && Lookable(q, rule)
    ensures Lookable(p + q, rule)
    ensures MatchCount(p + q, rule) == MatchCount(p, rule) + MatchCount(q, rule)
    decreases |q|
  {
    if q == [] {
      assert p + q == p;
    } else {
      var init := q[..|q| - 1];
      assert Lookable(init, rule);
      MatchCountAppend(p, init, rule);
      assert (p + q)[..|p + q| - 1] == p + init;
    }
  }

  lemma MultisetCancel<T>(a: multiset<T>, b: multiset<T>, x: T)
    requires a + multiset{x} == b + multiset{x}
    ensures a == b
  {
    assert a == (a + multiset{x}) - multiset{x};
    assert b == (b + multiset{x}) - multiset{x};
  }

  /** Taking one card out of the picked list takes its weight out of the count. */
  lemma MatchCountRemoveAt(q: seq<Card>, j: nat, rule: Rule)
    requires j < |q| && Lookable(q, rule)
    ensures Lookable(RemoveAt(q, j), rule)
    ensures MatchCount(q, rule) == MatchCount(RemoveAt(q, j), rule) + Weight(q[j], rule)
  {
    var x := q[j];
    assert q == q[..j] + [x] + q[j + 1..];
    assert Lookable(q[..j], rule) && Lookable(q[j + 1..], rule);
    MatchCountAppend(q[..j], [x], rule);
    MatchCountAppend(q[..j] + [x], q[j + 1..], rule);
    MatchCountAppend(q[..j], q[j + 1..], rule);
    assert [x][..0] == [];
    assert MatchCount([x], rule) == Weight(x, rule);
  }

  /** any_match does not depend on the order in which the cards were picked. */
  lemma {:induction false} MatchCountIgnoresOrder(p: seq<Card>, q: seq<Card>, rule: Rule)
    requires multiset(p) == multiset(q) && Lookable(p, rule)
    ensures Lookable(q, rule)
    ensures MatchCount(p, rule) == MatchCount(q, rule)
    decreases |p|
  {
    forall j | 0 <= j < |q|
      ensures CanLookUp(q[j], rule)
    {
      assert q[j] in multiset(p);
    }
    if p != [] {
      var init := p[..|p| - 1];
      var x := p[|p| - 1];
      assert p == init + [x];
      assert multiset(p) == multiset(init) + multiset{x};
      assert x in multiset(q);
      var j := FirstIndex(q, x);
      var q' := RemoveAt(q, j);
      MultisetRemoveAt(q, j);
      MultisetCancel(multiset(init), multiset(q'), x);
      assert Lookable(init, rule);
      MatchCountRemoveAt(q, j, rule);
      MatchCountIgnoresOrder(init, q', rule);
    }
  }

  /** With the default threshold of one, any_match holds exactly when some picked card matches. */
  lemma {:induction false} MatchCountPositive(picked: seq<Card>, rule: Rule)
    requires Lookable(picked, rule)
    ensures MatchCount(picked, rule) >= 1 <==> exists i :: 0 <= i < |picked| && Weight(picked[i], rule) >= 1
  {
    if picked != [] {
      var init := picked[..|picked| - 1];
      assert Lookable(init, rule);
      MatchCountPositive(init, rule);
      if exists i :: 0 <= i < |init| && Weight(init[i], rule) >= 1 {
        var i :| 0 <= i < |init| && Weight(init[i], rule) >= 1;
        assert picked[i] == init[i];
      }
      if exists i :: 0 <= i < |picked| && Weight(picked[i], rule) >= 1 {
        var i :| 0 <= i < |picked| && Weight(picked[i], rule) >= 1;
        if i < |init| {
          assert init[i] == picked[i];
        }
      }
    }
  }

  /**
   * `all_match`: each picked card must be found in the currently active list and is then removed
   * from it; once a list runs empty the next one in priority order takes over, and once all are
   * empty the remaining cards pass. Cards are compared as `is_the_same_card` compares them
   * (see AllMatchAsWritten for the identity comparison the code performs).
   */
  function AllMatchFrom(picked: seq<Card>, crit: Criteria): Result<bool>
    decreases |picked|
  {
    if picked == [] then Ok(true)
    else
      var card := picked[0];
      if crit.colours != [] then
        if !IsSuitKey(card.suit) then Err(UnknownSuit)
        else if Colour(card) !in crit.colours then Ok(false)
        else AllMatchFrom(picked[1..], crit.(colours := RemoveFirst(crit.colours, Colour(card))))
      else if crit.values != [] then
        if card.value !in crit.values then Ok(false)
        else AllMatchFrom(picked[1..], crit.(values := RemoveFirst(crit.values, card.value)))
      else if crit.cards != [] then
        if card !in crit.cards then Ok(false)
        else AllMatchFrom(picked[1..], crit.(cards := RemoveFirst(crit.cards, card)))
      else if crit.suits != [] then
        if card.suit !in crit.suits then Ok(false)
        else AllMatchFrom(picked[1..], crit.(suits := RemoveFirst(crit.suits, card.suit)))
      else AllMatchFrom(picked[1..], crit)
  }

  /**
   * `all_match` as written: `card not in cards` compares object identity, since Card defines no
   * equality, and the criterion cards a caller passes are never the objects the deck handed out;
   * so a card checked against the `cards` list always fails.
   */
  function AllMatchAsWritten(picked: seq<Card>, crit: Criteria): Result<bool>
    decreases |picked|
  {
    if picked == [] then Ok(true)
    else
      var card := picked[0];
      if crit.colours != [] then
        if !IsSuitKey(card.suit) then Err(UnknownSuit)
        else if Colour(card) !in crit.colours then Ok(false)
        else AllMatchAsWritten(picked[1..], crit.(colours := RemoveFirst(crit.colours, Colour(card))))
      else if crit.values != [] then
        if card.value !in crit.values then Ok(false)
        else AllMatchAsWritten(picked[1..], crit.(values := RemoveFirst(crit.values, card.value)))
      else if crit.cards != [] then Ok(false)
      else if crit.suits != [] then
        if card.suit !in crit.suits then Ok(false)
        else AllMatchAsWritten(picked[1..], crit.(suits := RemoveFirst(crit.suits, card.suit)))
      else AllMatchAsWritten(picked[1..], crit)
  }

  /** The values of the picked cards, in order. */
  function ValuesOf(picked: seq<Card>): (vs: seq<Key>)
    ensures |vs| == |picked|
    ensures forall i :: 0 <= i < |picked| ==> vs[i] == picked[i].value
  {
    if picked == [] then [] else [picked[0].value] + ValuesOf(picked[1..])
  }

  function Min(a: nat, b: nat): nat
  {
    if a <= b then a else b
  }

  /**
   * Consuming `xs` from `pool`: each element in turn must be in the pool and is removed from it,
   * and once the pool is exhausted the remaining elements pass.
   */
  function Consume<T(==)>(xs: seq<T>, pool: seq<T>): bool
    decreases |xs|
  {
    xs == [] || pool == [] || (xs[0] in pool && Consume(xs[1..], RemoveFirst(pool, xs[0])))
  }

  /**
   * Containment of the compared prefix, one element at a time: when the first element is in the
   * pool, the rest of the prefix against the pool without it decides the same question.
   */
  lemma PrefixContainmentStep<T>(xs: seq<T>, pool: seq<T>)
    requires xs != [] && xs[0] in pool
    ensures
      var rest := RemoveFirst(pool, xs[0]);
      (multiset(xs[1..][..Min(|xs| - 1, |rest|)]) <= multiset(rest)) ==
      (multiset(xs[..Min(|xs|, |pool|)]) <= multiset(pool))
  {
    var x := xs[0];
    var m := Min(|xs|, |pool|);
    var rest := RemoveFirst(pool, x);
    MultisetRemoveFirst(pool, x);
    assert Min(|xs| - 1, |rest|) == m - 1;
    var later := xs[1..m];
    assert xs[1..][..m - 1] == later;
    assert xs[..m] == [x] + later;
    assert multiset(xs[..m]) == multiset{x} + multiset(later);
    SubMultisetCancel(multiset(later), multiset(rest), x);
  }

  /** Consuming succeeds exactly when the first |pool| elements are contained in the pool, counting multiplicity. */
  lemma {:induction false} ConsumeContainment<T>(xs: seq<T>, pool: seq<T>)
    ensures Consume(xs, pool) == (multiset(xs[..Min(|xs|, |pool|)]) <= multiset(pool))
    decreases |xs|
  {
    var m := Min(|xs|, |pool|);
    if xs == [] || pool == [] {
      assert xs[..m] == [];
    } else if xs[0] in pool {
      ConsumeContainment(xs[1..], RemoveFirst(pool, xs[0]));
      PrefixContainmentStep(xs, pool);
    } else {
      assert xs[..m][0] == xs[0];
      assert multiset(xs[..m])[xs[0]] > 0 == multiset(pool)[xs[0]];
    }
  }

  /** With no criteria at all, every picked card passes. */
  lemma {:induction false} AllMatchNoCriteria(picked: seq<Card>)
    ensures AllMatchFrom(picked, Criteria([], [], [], [])) == Ok(true)
    decreases |picked|
  {
    if picked != [] {
      AllMatchNoCriteria(picked[1..]);
    }
  }

  lemma {:induction false} AllMatchValuesConsume(picked: seq<Card>, values: seq<Key>)
    ensures AllMatchFrom(picked, Criteria([], values, [], [])) == Ok(Consume(ValuesOf(picked), values))
    decreases |picked|
  {
    if picked != [] {
      if values == [] {
        AllMatchNoCriteria(picked);
      } else if picked[0].value in values {
        AllMatchValuesConsume(picked[1..], RemoveFirst(values, picked[0].value));
      }
    }
  }

  lemma {:induction false} AllMatchCardsConsume(picked: seq<Card>, cards: seq<Card>)
    ensures AllMatchFrom(picked, Criteria([], [], cards, [])) == Ok(Consume(picked, cards))
    decreases |picked|
  {
    if picked != [] {
      if cards == [] {
        AllMatchNoCriteria(picked);
      } else if picked[0] in cards {
        AllMatchCardsConsume(picked[1..], RemoveFirst(cards, picked[0]));
      }
    }
  }

  /**
   * With only a value list L, all_match holds exactly when the values of the first |L| picked
   * cards (all of them if fewer) are contained in L counting multiplicity.
   */
  lemma AllMatchValues(picked: seq<Card>, values: seq<Key>)
    ensures AllMatchFrom(picked, Criteria([], values, [], [])) ==
      Ok(multiset(ValuesOf(picked)[..Min(|picked|, |values|)]) <= multiset(values))
  {
    AllMatchValuesConsume(picked, values);
    ConsumeContainment(ValuesOf(picked), values);
  }

  /**
   * With only a card list L, all_match holds exactly when the first |L| picked cards (all of them
   * if fewer) are contained in L counting multiplicity.
   */
  lemma AllMatchCards(picked: seq<Card>, cards: seq<Card>)
    ensures AllMatchFrom(picked, Criteria([], [], cards, [])) ==
      Ok(multiset(picked[..Min(|picked|, |cards|)]) <= multiset(cards))
  {
    AllMatchCardsConsume(picked, cards);
    ConsumeContainment(picked, cards);
  }

  /** The suits of the picked cards, in order. */
  function SuitsOf(picked: seq<Card>): (ss: seq<Key>)
    ensures |ss| == |picked|
    ensures forall i :: 0 <= i < |picked| ==> ss[i] == picked[i].suit
  {
    if picked == [] then [] else [picked[0].suit] + SuitsOf(picked[1..])
  }

  lemma {:induction false} AllMatchSuitsConsume(picked: seq<Card>, suits: seq<Key>)
    ensures AllMatchFrom(picked, Criteria([], [], [], suits)) == Ok(Consume(SuitsOf(picked), suits))
    decreases |picked|
  {
    if picked != [] {
      if suits == [] {
        AllMatchNoCriteria(picked);
      } else if picked[0].suit in suits {
        AllMatchSuitsConsume(picked[1..], RemoveFirst(suits, picked[0].suit));
      }
    }
  }

  /**
   * With only a suit list L, all_match holds exactly when the suits of the first |L| picked cards
   * (all of them if fewer) are contained in L counting multiplicity.
   */
  lemma AllMatchSuits(picked: seq<Card>, suits: seq<Key>)
    ensures AllMatchFrom(picked, Criteria([], [], [], suits)) ==
      Ok(multiset(SuitsOf(picked)[..Min(|picked|, |suits|)]) <= multiset(suits))
  {
    AllMatchSuitsConsume(picked, suits);
    ConsumeContainment(SuitsOf(picked), suits);
  }

  /** Every card of the list has a suit of the suit table, so its colour can be looked up. */
  predicate TableSuits(picked: seq<Card>)
  {
    forall i :: 0 <= i < |picked| ==> IsSuitKey(picked[i].suit)
  }

  /** The colours of the picked cards, in order. */
  function ColoursOf(picked: seq<Card>): (cs: seq<string>)
    requires TableSuits(picked)
    ensures |cs| == |picked|
    ensures forall i :: 0 <= i < |picked| ==> cs[i] == Colour(picked[i])
  {
    if picked == [] then [] else [Colour(picked[0])] + ColoursOf(picked[1..])
  }

  /** Dropping the first card of a colour-checked prefix drops the first colour. */
  lemma ColoursOfTail(picked: seq<Card>, m: nat)
    requires 1 <= m <= |picked| && TableSuits(picked[..m])
    ensures TableSuits(picked[1..][..m - 1])
    ensures ColoursOf(picked[..m])[1..] == ColoursOf(picked[1..][..m - 1])
  {
    assert picked[1..][..m - 1] == picked[..m][1..];
  }

  /** One step of all_match with only a colour list, on a card of table suit. */
  lemma AllMatchColourStep(picked: seq<Card>, colours: seq<string>)
    requires picked != [] && colours != [] && IsSuitKey(picked[0].suit)
    ensures AllMatchFrom(picked, Criteria(colours, [], [], [])) ==
      if Colour(picked[0]) !in colours then Ok(false)
      else AllMatchFrom(picked[1..], Criteria(RemoveFirst(colours, Colour(picked[0])), [], [], []))
  {
  }

  /**
   * all_match with only a colour list, when the cards it reaches (the first |L|) have table suits:
   * their colours are consumed from the list.
   */
  lemma {:induction false} AllMatchColoursConsume(picked: seq<Card>, colours: seq<string>)
    requires TableSuits(picked[..Min(|picked|, |colours|)])
    ensures AllMatchFrom(picked, Criteria(colours, [], [], [])) ==
      Ok(Consume(ColoursOf(picked[..Min(|picked|, |colours|)]), colours))
    decreases |picked|
  {
    var m := Min(|picked|, |colours|);
    if colours == [] {
      AllMatchNoCriteria(picked);
    } else if picked != [] {
      assert picked[..m][0] == picked[0];
      var colour := Colour(picked[0]);
      var xs := ColoursOf(picked[..m]);
      assert xs[0] == colour;
      AllMatchColourStep(picked, colours);
      if colour in colours {
        var rest := RemoveFirst(colours, colour);
        MultisetRemoveFirst(colours, colour);
        assert Min(|picked[1..]|, |rest|) == m - 1;
        ColoursOfTail(picked, m);
        AllMatchColoursConsume(picked[1..], rest);
        assert Consume(xs, colours) == Consume(xs[1..], rest);
      }
    }
  }

  /**
   * all_match with only a colour list L reaches a card of unknown suit at position i < |L| exactly
   * when the colours before it are consumed from L; it then raises UnknownSuit, and otherwise it
   * has already answered false.
   */
  lemma {:induction false} AllMatchUnknownSuitConsume(picked: seq<Card>, colours: seq<string>, i: nat)
    requires i < |picked| && i < |colours|
    requires !IsSuitKey(picked[i].suit) && TableSuits(picked[..i])
    ensures AllMatchFrom(picked, Criteria(colours, [], [], [])) ==
      if Consume(ColoursOf(picked[..i]), colours) then Err(UnknownSuit) else Ok(false)
    decreases i
  {
    if i == 0 {
      assert picked[..0] == [];
    } else {
      assert picked[..i][0] == picked[0];
      var colour := Colour(picked[0]);
      var xs := ColoursOf(picked[..i]);
      assert xs[0] == colour;
      AllMatchColourStep(picked, colours);
      if colour in colours {
        var rest := RemoveFirst(colours, colour);
        MultisetRemoveFirst(colours, colour);
        ColoursOfTail(picked, i);
        AllMatchUnknownSuitConsume(picked[1..], rest, i - 1);
        assert Consume(xs, colours) == Consume(xs[1..], rest);
      }
    }
  }

  /**
   * With only a colour list L, when the first |L| picked cards (all of them if fewer) have table
   * suits, all_match holds exactly when their colours are contained in L counting multiplicity.
   */
  lemma AllMatchColours(picked: seq<Card>, colours: seq<string>)
    ensures var m := Min(|picked|, |colours|);
      TableSuits(picked[..m]) ==>
        AllMatchFrom(picked, Criteria(colours, [], [], [])) == Ok(multiset(ColoursOf(picked[..m])) <= multiset(colours))
  {
    var m := Min(|picked|, |colours|);
    if TableSuits(picked[..m]) {
      AllMatchColoursConsume(picked, colours);
      ConsumeContainment(ColoursOf(picked[..m]), colours);
      assert ColoursOf(picked[..m])[..m] == ColoursOf(picked[..m]);
    }
  }

  /**
   * With only a colour list L, when the first card of unknown suit sits at position i < |L|,
   * all_match raises UnknownSuit exactly when the colours of the cards before it are contained in
   * L counting multiplicity, and answers false otherwise.
   */
  lemma AllMatchUnknownSuit(picked: seq<Card>, colours: seq<string>, i: nat)
    requires i < |picked| && i < |colours|
    requires !IsSuitKey(picked[i].suit) && TableSuits(picked[..i])
    ensures AllMatchFrom(picked, Criteria(colours, [], [], [])) ==
      if multiset(ColoursOf(picked[..i])) <= multiset(colours) then Err(UnknownSuit) else Ok(false)
  {
    AllMatchUnknownSuitConsume(picked, colours, i);
    ConsumeContainment(ColoursOf(picked[..i]), colours);
    assert ColoursOf(picked[..i])[..Min(i, |colours|)] == ColoursOf(picked[..i]);
  }

  /**
   * `order_match`: the card at position idx against entry idx of the active list; an entry past
   * the end of the list is an IndexError. Cards are compared as `is_the_same_card` compares them
   * (see OrderMatchAsWritten for the identity comparison the code performs).
   */
  function OrderMatchFrom(picked: seq<Card>, rule: Rule, idx: nat): Result<bool>
    requires idx <= |picked|
    decreases |picked| - idx
  {
    if idx == |picked| then Ok(true)
    else
      var card := picked[idx];
      match rule
      case ByColour(colours) =>
        if !IsSuitKey(card.suit) then Err(UnknownSuit)
        else if idx >= |colours| then Err(IndexOutOfRange)
        else if Colour(card) != colours[idx] then Ok(false)
        else OrderMatchFrom(picked, rule, idx + 1)
      case ByValue(values) =>
        if idx >= |values| then Err(IndexOutOfRange)
        else if card.value != values[idx] then Ok(false)
        else OrderMatchFrom(picked, rule, idx + 1)
      case ByCard(cards) =>
        if idx >= |cards| then Err(IndexOutOfRange)
        else if card != cards[idx] then Ok(false)
        else OrderMatchFrom(picked, rule, idx + 1)
      case BySuit(suits) =>
        if idx >= |suits| then Err(IndexOutOfRange)
        else if card.suit != suits[idx] then Ok(false)
        else OrderMatchFrom(picked, rule, idx + 1)
      case NoRule => OrderMatchFrom(picked, rule, idx + 1)
  }

  /**
   * `order_match` as written: `card != cards[idx]` compares object identity, so a picked card
   * never equals a criterion card and the `cards` rule fails at the first position it reaches.
   */
  function OrderMatchAsWritten(picked: seq<Card>, rule: Rule, idx: nat): Result<bool>
    requires idx <= |picked|
    decreases |picked| - idx
  {
    if idx == |picked| then Ok(true)
    else if rule.ByCard? then
      if idx >= |rule.cards| then Err(IndexOutOfRange) else Ok(false)
    else OrderMatchFrom(picked, rule, idx)
  }

  /**
   * With a value list L, order_match from position idx on: true exactly when the remaining
   * picked values are L's entries at the same positions; false exactly when some position within
   * both has a different value; an IndexError exactly when more cards were picked than L has
   * entries and all positions within L agree.
   */
  lemma {:induction false} OrderMatchValues(picked: seq<Card>, values: seq<Key>, idx: nat)
    requires idx <= |picked| && idx <= |values|
    ensures OrderMatchFrom(picked, ByValue(values), idx) == Ok(true) <==>
      |picked| <= |values| && forall j :: idx <= j < |picked| ==> picked[j].value == values[j]
    ensures OrderMatchFrom(picked, ByValue(values), idx) == Ok(false) <==>
      exists j :: idx <= j < |picked| && j < |values| && picked[j].value != values[j]
    ensures OrderMatchFrom(picked, ByValue(values), idx) == Err(IndexOutOfRange) <==>
      |picked| > |values| && forall j :: idx <= j < |values| ==> picked[j].value == values[j]
    decreases |picked| - idx
  {
    if idx < |picked| && idx < |values| {
      if picked[idx].value != values[idx] {
        assert OrderMatchFrom(picked, ByValue(values), idx) == Ok(false);
      } else {
        assert OrderMatchFrom(picked, ByValue(values), idx) == OrderMatchFrom(picked, ByValue(values), idx + 1);
        OrderMatchValues(picked, values, idx + 1);
        if exists j :: idx <= j < |picked| && j < |values| && picked[j].value != values[j] {
          var j :| idx <= j < |picked| && j < |values| && picked[j].value != values[j];
          assert idx + 1 <= j;
        }
      }
    }
  }

  /**
   * With a card list L, order_match from position idx on: true exactly when the remaining picked
   * cards are L's entries at the same positions; false exactly when some position within both
   * holds a different card; an IndexError exactly when more cards were picked than L has entries
   * and all positions within L agree.
   */
  lemma {:induction false} OrderMatchCards(picked: seq<Card>, cards: seq<Card>, idx: nat)
    requires idx <= |picked| && idx <= |cards|
    ensures OrderMatchFrom(picked, ByCard(cards), idx) == Ok(true) <==>
      |picked| <= |cards| && forall j :: idx <= j < |picked| ==> picked[j] == cards[j]
    ensures OrderMatchFrom(picked, ByCard(cards), idx) == Ok(false) <==>
      exists j :: idx <= j < |picked| && j < |cards| && picked[j] != cards[j]
    ensures OrderMatchFrom(picked, ByCard(cards), idx) == Err(IndexOutOfRange) <==>
      |picked| > |cards| && forall j :: idx <= j < |cards| ==> picked[j] == cards[j]
    decreases |picked| - idx
  {
    if idx < |picked| && idx < |cards| {
      if picked[idx] != cards[idx] {
        assert OrderMatchFrom(picked, ByCard(cards), idx) == Ok(false);
      } else {
        assert OrderMatchFrom(picked, ByCard(cards), idx) == OrderMatchFrom(picked, ByCard(cards), idx + 1);
        OrderMatchCards(picked, cards, idx + 1);
        if exists j :: idx <= j < |picked| && j < |cards| && picked[j] != cards[j] {
          var j :| idx <= j < |picked| && j < |cards| && picked[j] != cards[j];
          assert idx + 1 <= j;
        }
      }
    }
  }

  /**
   * With a suit list L, order_match from position idx on: true exactly when the remaining picked
   * suits are L's entries at the same positions; false exactly when some position within both
   * has a different suit; an IndexError exactly when more cards were picked than L has entries
   * and all positions within L agree.
   */
  lemma {:induction false} OrderMatchSuits(picked: seq<Card>, suits: seq<Key>, idx: nat)
    requires idx <= |picked| && idx <= |suits|
    ensures OrderMatchFrom(picked, BySuit(suits), idx) == Ok(true) <==>
      |picked| <= |suits| && forall j :: idx <= j < |picked| ==> picked[j].suit == suits[j]
    ensures OrderMatchFrom(picked, BySuit(suits), idx) == Ok(false) <==>
      exists j :: idx <= j < |picked| && j < |suits| && picked[j].suit != suits[j]
    ensures OrderMatchFrom(picked, BySuit(suits), idx) == Err(IndexOutOfRange) <==>
      |picked| > |suits| && forall j :: idx <= j < |suits| ==> picked[j].suit == suits[j]
    decreases |picked| - idx
  {
    if idx < |picked| && idx < |suits| {
      if picked[idx].suit != suits[idx] {
        assert OrderMatchFrom(picked, BySuit(suits), idx) == Ok(false);
      } else {
        assert OrderMatchFrom(picked, BySuit(suits), idx) == OrderMatchFrom(picked, BySuit(suits), idx + 1);
        OrderMatchSuits(picked, suits, idx + 1);
        if exists j :: idx <= j < |picked| && j < |suits| && picked[j].suit != suits[j] {
          var j :| idx <= j < |picked| && j < |suits| && picked[j].suit != suits[j];
          assert idx + 1 <= j;
        }
      }
    }
  }

  /** Positions lo to hi - 1 hold cards of table suits whose colours are L's entries there. */
  predicate ColoursAgree(picked: seq<Card>, colours: seq<string>, lo: nat, hi: nat)
    requires hi <= |picked| && hi <= |colours|
  {
    forall k :: lo <= k < hi ==> IsSuitKey(picked[k].suit) && Colour(picked[k]) == colours[k]
  }

  /** Agreement from lo on is agreement at lo and from lo + 1 on. */
  lemma ColoursAgreeStep(picked: seq<Card>, colours: seq<string>, lo: nat, hi: nat)
    requires lo < hi <= |picked| && hi <= |colours|
    ensures ColoursAgree(picked, colours, lo, hi) <==>
      IsSuitKey(picked[lo].suit) && Colour(picked[lo]) == colours[lo] && ColoursAgree(picked, colours, lo + 1, hi)
  {
  }

  /**
   * With a colour list L, order_match from position idx on, where each card's colour is looked
   * up before L is indexed: true exactly when the remaining cards have table suits whose colours
   * are L's entries at the same positions; false exactly when the first position that does not
   * agree is within L and holds a card of the other colour; UnknownSuit exactly when it holds a
   * card of unknown suit (at most one past the end of L); an IndexError exactly when all positions
   * within L agree and the card just past them has a table suit.
   */
  lemma {:induction false} OrderMatchColours(picked: seq<Card>, colours: seq<string>, idx: nat)
    requires idx <= |picked| && idx <= |colours|
    ensures OrderMatchFrom(picked, ByColour(colours), idx) == Ok(true) <==>
      |picked| <= |colours| && ColoursAgree(picked, colours, idx, |picked|)
    ensures OrderMatchFrom(picked, ByColour(colours), idx) == Ok(false) <==>
      exists j :: idx <= j < |picked| && j < |colours| && ColoursAgree(picked, colours, idx, j)
        && IsSuitKey(picked[j].suit) && Colour(picked[j]) != colours[j]
    ensures OrderMatchFrom(picked, ByColour(colours), idx) == Err(UnknownSuit) <==>
      exists j :: idx <= j < |picked| && j <= |colours| && ColoursAgree(picked, colours, idx, j)
        && !IsSuitKey(picked[j].suit)
    ensures OrderMatchFrom(picked, ByColour(colours), idx) == Err(IndexOutOfRange) <==>
      |picked| > |colours| && ColoursAgree(picked, colours, idx, |colours|) && IsSuitKey(picked[|colours|].suit)
    decreases |picked| - idx
  {
    if idx < |picked| {
      var card := picked[idx];
      if !IsSuitKey(card.suit) {
        assert OrderMatchFrom(picked, ByColour(colours), idx) == Err(UnknownSuit);
        assert ColoursAgree(picked, colours, idx, idx);
        forall j | idx < j <= |picked| && j <= |colours|
          ensures !ColoursAgree(picked, colours, idx, j)
        {
          ColoursAgreeStep(picked, colours, idx, j);
        }
      } else if idx == |colours| {
        assert OrderMatchFrom(picked, ByColour(colours), idx) == Err(IndexOutOfRange);
        assert ColoursAgree(picked, colours, idx, idx);
      } else if Colour(card) != colours[idx] {
        assert OrderMatchFrom(picked, ByColour(colours), idx) == Ok(false);
        assert ColoursAgree(picked, colours, idx, idx);
        forall j | idx < j <= |picked| && j <= |colours|
          ensures !ColoursAgree(picked, colours, idx, j)
        {
          ColoursAgreeStep(picked, colours, idx, j);
        }
      } else {
        assert OrderMatchFrom(picked, ByColour(colours), idx) == OrderMatchFrom(picked, ByColour(colours), idx + 1);
        OrderMatchColours(picked, colours, idx + 1);
        forall j | idx < j <= |picked| && j <= |colours|
          ensures ColoursAgree(picked, colours, idx, j) == ColoursAgree(picked, colours, idx + 1, j)
        {
          ColoursAgreeStep(picked, colours, idx, j);
        }
      }
    }
  }

  /**
   * The identity comparison rejects cards equal to the criterion: asking all_match or order_match
   * whether the picked cards are exactly the listed cards answers false as written, and true once
   * cards are compared like `is_the_same_card` compares them.
   */
  lemma IdentityRejectsEqualCards(picked: seq<Card>)
    requires picked != []
    ensures AllMatchAsWritten(picked, Criteria([], [], picked, [])) == Ok(false)
    ensures OrderMatchAsWritten(picked, ByCard(picked), 0) == Ok(false)
    ensures AllMatchFrom(picked, Criteria([], [], picked, [])) == Ok(true)
    ensures OrderMatchFrom(picked, ByCard(picked), 0) == Ok(true)
  {
    AllMatchCards(picked, picked);
    assert picked[..Min(|picked|, |picked|)] == picked;
    OrderMatchCards(picked, picked, 0);
  }

  /** Which ledger entry `compare_picked` reads: `from_sequence`, or else the preceding step. */
  function FromSequence(meta: Meta, current: int): int
  {
    if meta.fromSequence.Some? then meta.fromSequence.value else current - 1
  }

  predicate IsMatchCommand(command: Option<string>)
  {
    command == Some("any_match") || command == Some("all_match") || command == Some("order_match")
  }

  /** `action_compare_picked` as a function of the ledger it reads. */
  function ComparePicked(command: Option<string>, meta: Meta, ledger: map<int, StepResult>, current: int): Result<StepResult>
  {
    if !IsMatchCommand(command) then Ok(NoneResult)
    else
      var from := FromSequence(meta, current);
      if from !in ledger then Err(MissingResult)
      else if !ledger[from].CardsResult? then Err(NotIterable)
      else
        var picked := ledger[from].cards;
        var crit := CriteriaOf(meta);
        var outcome :=
          if command == Some("any_match") then
            AnyMatchResult(picked, crit, if meta.matchesRequired.Some? then meta.matchesRequired.value else 1)
          else if command == Some("all_match") then AllMatchFrom(picked, crit)
          else OrderMatchFrom(picked, Active(crit), 0);
        if outcome.Err? then Err(outcome.error) else Ok(BoolResult(outcome.value))
  }

  /**
   * In a run the ledger holds exactly the steps before the current one, so a comparison that
   * succeeds read an earlier step: by default the one immediately before it.
   */
  lemma ComparePickedReadsEarlier(command: Option<string>, meta: Meta, ledger: map<int, StepResult>, current: int)
    requires Spans(ledger, current)
    requires IsMatchCommand(command) && ComparePicked(command, meta, ledger, current).Ok?
    ensures 1 <= FromSequence(meta, current) < current
    ensures ledger[FromSequence(meta, current)].CardsResult?
    ensures meta.fromSequence.None? ==> FromSequence(meta, current) == current - 1
  {
  }

  /** The ledger holds exactly the positions 1 to n - 1. */
  ghost predicate Spans(ledger: map<int, StepResult>, n: int)
  {
    forall k :: k in ledger <==> 1 <= k < n
  }

  /** Storing position n in a ledger that spans 1 to n - 1 makes it span 1 to n. */
  lemma SpansExtend(ledger: map<int, StepResult>, n: int, v: StepResult)
    requires 1 <= n && Spans(ledger, n)
    ensures Spans(ledger[n := v], n + 1)
  {
  }

  /** The entries of the ledger below position k: what the step at position k saw. */
  function Below(ledger: map<int, StepResult>, k: int): map<int, StepResult>
  {
    map j | j in ledger && j < k :: ledger[j]
  }

  // ---------------------------------------------------------------------------------------------
  // Matching methods

  /** The `any_match` loop of `action_compare_picked`. */
  method AnyMatch(picked: seq<Card>, crit: Criteria, matchesRequired: int) returns (r: Result<bool>)
    ensures r == AnyMatchResult(picked, crit, matchesRequired)
  {
    ghost var rule := Active(crit);
    var matches := 0;
    var i := 0;
    while i < |picked|
      invariant 0 <= i <= |picked|
      invariant Lookable(picked[..i], rule)
      invariant matches == MatchCount(picked[..i], rule)
    {
      var card := picked[i];
      assert picked[..i + 1][..i] == picked[..i];
      if crit.colours != [] {
        if !IsSuitKey(card.suit) {
          assert !CanLookUp(picked[i], rule);
          return Err(UnknownSuit);
        }
        if Colour(card) in crit.colours {
          matches := matches + 1;
        }
      } else if crit.values != [] {
        if card.value in crit.values {
          matches := matches + 1;
        }
      } else if crit.cards != [] {
        var j := 0;
        while j < |crit.cards|
          invariant 0 <= j <= |crit.cards|
          invariant matches == MatchCount(picked[..i], rule) + multiset(crit.cards[..j])[card]
        {
          assert crit.cards[..j + 1] == crit.cards[..j] + [crit.cards[j]];
          if IsTheSameCard(card, crit.cards[j]) {
            matches := matches + 1;
          }
          j := j + 1;
        }
        assert crit.cards[..j] == crit.cards;
      } else if crit.suits != [] {
        if card.suit in crit.suits {
          matches := matches + 1;
        }
      }
      i := i + 1;
    }
    assert picked[..i] == picked;
    r := Ok(matchesRequired <= matches);
  }

  /** The `all_match` loop: criterion lists copied, then consumed with `remove`. */
  method AllMatch(picked: seq<Card>, crit: Criteria) returns (r: Result<bool>)
    ensures r == AllMatchFrom(picked, crit)
  {
    var colours, values, cards, suits := crit.colours, crit.values, crit.cards, crit.suits;
    var i := 0;
    while i < |picked|
      invariant 0 <= i <= |picked|
      invariant AllMatchFrom(picked, crit) == AllMatchFrom(picked[i..], Criteria(colours, values, cards, suits))
    {
      var card := picked[i];
      assert picked[i..][1..] == picked[i + 1..];
      if colours != [] {
        if !IsSuitKey(card.suit) {
          return Err(UnknownSuit);
        }
        if Colour(card) !in colours {
          return Ok(false);
        }
        colours := RemoveFirst(colours, Colour(card));
      } else if values != [] {
        if card.value !in values {
          return Ok(false);
        }
        values := RemoveFirst(values, card.value);
      } else if cards != [] {
        if card !in cards {
          return Ok(false);
        }
        cards := RemoveFirst(cards, card);
      } else if suits != [] {
        if card.suit !in suits {
          return Ok(false);
        }
        suits := RemoveFirst(suits, card.suit);
      }
      i := i + 1;
    }
    r := Ok(true);
  }

  /** The `order_match` loop over positions. */
  method OrderMatch(picked: seq<Card>, crit: Criteria) returns (r: Result<bool>)
    ensures r == OrderMatchFrom(picked, Active(crit), 0)
  {
    var idx := 0;
    while idx < |picked|
      invariant 0 <= idx <= |picked|
      invariant OrderMatchFrom(picked, Active(crit), 0) == OrderMatchFrom(picked, Active(crit), idx)
    {
      var card := picked[idx];
      if crit.colours != [] {
        if !IsSuitKey(card.suit) {
          return Err(UnknownSuit);
        }
        if idx >= |crit.colours| {
          return Err(IndexOutOfRange);
        }
        if Colour(card) != crit.colours[idx] {
          return Ok(false);
        }
      } else if crit.values != [] {
        if idx >= |crit.values| {
          return Err(IndexOutOfRange);
        }
        if card.value != crit.values[idx] {
          return Ok(false);
        }
      } else if crit.cards != [] {
        if idx >= |crit.cards| {
          return Err(IndexOutOfRange);
        }
        if card != crit.cards[idx] {
          return Ok(false);
        }
      } else if crit.suits != [] {
        if idx >= |crit.suits| {
          return Err(IndexOutOfRange);
        }
        if card.suit != crit.suits[idx] {
          return Ok(false);
        }
      }
      idx := idx + 1;
    }
    r := Ok(true);
  }

  lemma BelowExtend(ledger: map<int, StepResult>, current: int, v: StepResult, k: int)
    requires forall j :: j in ledger ==> j < current
    ensures k < current ==> Below(ledger[current := v], k) == Below(ledger, k)
    ensures Below(ledger[current := v], current) == ledger
  {
  }

  // ---------------------------------------------------------------------------------------------
  // What a step does to the held deck, and the error it raises

  /**
   * `action_pick` on the cards of the held deck (None: no deck is held), as (outcome, cards of
   * the deck afterwards). A random pick checks the count before popping anything; a specific pick
   * keeps out the cards it took before the first absent one; with neither command `picked_cards`
   * is never bound.
   */
  function PickOutcome(command: Option<string>, meta: Meta, held: Option<seq<Card>>, draws: seq<nat>): (Result<StepResult>, Option<seq<Card>>)
    requires DrawsNeeded(meta) <= |draws|
  {
    if command == Some("random_cards") then
      if held.None? then (Err(NoDeck), held)
      else if CountOf(meta) > |held.value| then (Err(NotEnoughCards), held)
      else
        var split := RandomPicks(held.value, RangeLength(CountOf(meta)), draws);
        (Ok(CardsResult(split.0)), Some(split.1))
    else if command == Some("specific_cards") then
      if SpecificOf(meta) == [] then (Ok(CardsResult([])), held)
      else if held.None? then (Err(NoDeck), held)
      else
        var outcome := PickSpecific(held.value, SpecificOf(meta));
        (if outcome.0.Ok? then Ok(CardsResult(outcome.0.value)) else Err(outcome.0.error), Some(outcome.1))
    else (Err(UnboundPick), held)
  }

  /** A step that validation lets through to the `action_pick` handler. */
  predicate DispatchesPick(step: Step)
  {
    step.action == "pick" && Validate(step.action, step.command).None? && Accepts(step.action, step.meta)
  }

  /**
   * The error a step raises, if any, in the order the checks happen: validation, a missing
   * handler, an unexpected keyword argument, then the handler's own error. `held` is the held
   * deck's cards as the step finds them and `ledger`/`current` the ledger and position it sees.
   * A dispatched `start_with` never fails.
   */
  function StepError(step: Step, ledger: map<int, StepResult>, current: int, held: Option<seq<Card>>, draws: seq<nat>): Option<Error>
    requires DrawsNeeded(step.meta) <= |draws|
  {
    var invalid := Validate(step.action, step.command);
    if invalid.Some? then invalid
    else if step.action !in HANDLED_ACTIONS then Some(MissingHandler)
    else if !Accepts(step.action, step.meta) then Some(UnexpectedArgument)
    else if step.action == "start_with" then None
    else
      var outcome :=
        if step.action == "pick" then PickOutcome(step.command, step.meta, held, draws).0
        else ComparePicked(step.command, step.meta, ledger, current);
      if outcome.Err? then Some(outcome.error) else None
  }

  // ---------------------------------------------------------------------------------------------
  // The interpreter object

  class Language {
    const sequences: seq<Step>
    /** The compositions of StandardDeckWithJokers and EmptyDeck, which the shown models do not define. */
    const jokerVariant: Variant
    const emptyVariant: Variant
    var deck: Deck?
    var sequenceResults: map<int, StepResult>
    var currentSequence: int

    constructor (sequences: seq<Step>, jokerVariant: Variant, emptyVariant: Variant)
      ensures this.sequences == sequences
      ensures this.jokerVariant == jokerVariant && this.emptyVariant == emptyVariant
      ensures deck == null && sequenceResults == map[] && currentSequence == 0
    {
      this.sequences := sequences;
      this.jokerVariant := jokerVariant;
      this.emptyVariant := emptyVariant;
      deck := null;
      sequenceResults := map[];
      currentSequence := 0;
    }

    /** The deck kind each `start_with` command builds. */
    function VariantFor(command: string): Variant
    {
      if command == "standard_deck" then STANDARD_DECK
      else if command == "standard_deck_with_jokers" then jokerVariant
      else if command == "canasta_deck" then JOKER_DECK
      else emptyVariant
    }

    /**
     * The cards of the held deck after a step, from those it found: a dispatched pick leaves what
     * `PickOutcome` leaves, a start_with that builds a deck a fresh deck of the named kind, and
     * every other step the deck as it was.
     */
    function HeldAfter(step: Step, held: Option<seq<Card>>, draws: seq<nat>): Option<seq<Card>>
      requires DrawsNeeded(step.meta) <= |draws|
    {
      if DispatchesPick(step) then PickOutcome(step.command, step.meta, held, draws).1
      else if step.action == "start_with" && Accepts(step.action, step.meta) && StartsDeck(step.command) then
        Some(FreshCards(VariantFor(step.command.value).eachCardOccurs))
      else held
    }

    /**
     * A step ran without error on the deck cards `held` and the ledger before it, stored `entry`
     * (for a pick, the cards `PickOutcome` picks) and left the deck holding `after`.
     */
    ghost predicate Ran(step: Step, entry: StepResult, ledger: map<int, StepResult>, current: int,
                        held: Option<seq<Card>>, draws: seq<nat>, after: Option<seq<Card>>)
      requires DrawsNeeded(step.meta) <= |draws|
    {
      && StepError(step, ledger, current, held, draws) == None
      && after == HeldAfter(step, held, draws)
      && (DispatchesPick(step) ==> Ok(entry) == PickOutcome(step.command, step.meta, held, draws).0)
    }

    /**
     * What the ledger entry of a successful step says about the step, given the ledger the step
     * saw and its position: `start_with` stores a deck of the named kind, `pick` the picked list
     * (as many cards as requested), `compare_picked` the verdict of its rule.
     */
    ghost predicate Recorded(step: Step, result: StepResult, ledger: map<int, StepResult>, current: int)
    {
      if step.action == "start_with" then
        if StartsDeck(step.command) then result.DeckResult? && result.deck.variant == VariantFor(step.command.value)
        else result.DeckResult? || result.NoneResult?
      else if step.action == "pick" then
        && result.CardsResult?
        && (step.command == Some("random_cards") ==> |result.cards| == RangeLength(CountOf(step.meta)))
        && (step.command == Some("specific_cards") ==> result.cards == SpecificOf(step.meta))
      else if step.action == "compare_picked" then
        Ok(result) == ComparePicked(step.command, step.meta, ledger, current)
      else false
    }

    /** `action_start_with`: replace the held deck with a fresh one of the named kind, and return it. */
    method ActionStartWith(command: Option<string>) returns (r: Result<StepResult>)
      modifies this
      ensures sequenceResults == old(sequenceResults) && currentSequence == old(currentSequence)
      ensures StartsDeck(command) ==>
        && fresh(deck) && deck.variant == VariantFor(command.value)
        && deck.cards == FreshCards(deck.variant.eachCardOccurs)
      ensures !StartsDeck(command) ==> deck == old(deck)
      ensures r == Ok(if deck == null then NoneResult else DeckResult(deck))
    {
      if command == Some("standard_deck") {
        deck := new Deck(STANDARD_DECK);
      } else if command == Some("standard_deck_with_jokers") {
        deck := new Deck(jokerVariant);
      } else if command == Some("canasta_deck") {
        deck := new Deck(JOKER_DECK);
      } else if command == Some("empty_deck") {
        deck := new Deck(emptyVariant);
      }
      r := Ok(if deck == null then NoneResult else DeckResult(deck));
    }

    /** The cards of the held deck, or None when no deck is held. */
    function Held(): Option<seq<Card>>
      reads this, deck
    {
      if deck == null then None else Some(deck.cards)
    }

    /** `action_pick`: random cards or specific cards, from the held deck. */
    method ActionPick(command: Option<string>, meta: Meta, draws: seq<nat>) returns (r: Result<StepResult>)
      requires DrawsNeeded(meta) <= |draws|
      modifies deck
      ensures (r, Held()) == PickOutcome(command, meta, old(Held()), draws)
      ensures r.Ok? ==> r.value.CardsResult?
      ensures r.Ok? && command == Some("random_cards") ==> |r.value.cards| == RangeLength(CountOf(meta))
      ensures r.Ok? && command == Some("specific_cards") ==> r.value.cards == SpecificOf(meta)
    {
      var d := deck;
      if command == Some("random_cards") {
        if d == null {
          return Err(NoDeck);
        }
        ghost var before := d.cards;
        var picked := d.PickRandomCards(CountOf(meta), draws);
        if picked.Err? {
          return Err(picked.error);
        }
        RandomPicksSplit(before, RangeLength(CountOf(meta)), draws);
        r := Ok(CardsResult(picked.value));
      } else if command == Some("specific_cards") {
        var requested := SpecificOf(meta);
        if requested == [] {
          return Ok(CardsResult([]));
        }
        if d == null {
          return Err(NoDeck);
        }
        var picked: seq<Card> := [];
        var i := 0;
        assert requested[0..] == requested;
        PrependEmpty(PickSpecific(d.cards, requested).0);
        while i < |requested|
          invariant 0 <= i <= |requested|
          invariant picked == requested[..i]
          invariant PickSpecific(old(d.cards), requested) ==
            (Prepend(picked, PickSpecific(d.cards, requested[i..]).0), PickSpecific(d.cards, requested[i..]).1)
        {
          assert requested[i..][1..] == requested[i + 1..];
          var one := d.PickCard(requested[i]);
          if one.Err? {
            return Err(one.error);
          }
          ghost var after := PickSpecific(d.cards, requested[i + 1..]);
          PrependTwice(picked, [requested[i]], after.0);
          assert requested[..i + 1] == requested[..i] + [requested[i]];
          picked := picked + [one.value];
          i := i + 1;
        }
        assert requested[..i] == requested;
        assert picked + [] == picked;
        r := Ok(CardsResult(picked));
      } else {
        r := Err(UnboundPick);
      }
    }

    /** `action_compare_picked`: resolve the ledger entry, then apply the command's rule. */
    method ActionComparePicked(command: Option<string>, meta: Meta) returns (r: Result<StepResult>)
      ensures r == ComparePicked(command, meta, sequenceResults, currentSequence)
    {
      var from := if meta.fromSequence.Some? then meta.fromSequence.value else currentSequence - 1;
      var crit := CriteriaOf(meta);
      var outcome: Result<bool>;
      if command == Some("any_match") || command == Some("all_match") || command == Some("order_match") {
        if from !in sequenceResults {
          return Err(MissingResult);
        }
        var entry := sequenceResults[from];
        if !entry.CardsResult? {
          return Err(NotIterable);
        }
        if command == Some("any_match") {
          var required := if meta.matchesRequired.Some? then meta.matchesRequired.value else 1;
          outcome := AnyMatch(entry.cards, crit, required);
        } else if command == Some("all_match") {
          outcome := AllMatch(entry.cards, crit);
        } else {
          outcome := OrderMatch(entry.cards, crit);
        }
        r := if outcome.Err? then Err(outcome.error) else Ok(BoolResult(outcome.value));
      } else {
        r := Ok(NoneResult);
      }
    }

    /** `execute_sequence`: validate the action and command, then dispatch to the handler. */
    method ExecuteSequence(step: Step, draws: seq<nat>) returns (r: Result<StepResult>)
      requires DrawsNeeded(step.meta) <= |draws|
      modifies this, deck
      ensures sequenceResults == old(sequenceResults) && currentSequence == old(currentSequence)
      ensures deck == old(deck) || (step.action == "start_with" && fresh(deck))
      ensures old(deck) != null && deck != old(deck) ==> old(deck).cards == old(deck.cards)
      ensures StepError(step, sequenceResults, currentSequence, old(Held()), draws) == (if r.Err? then Some(r.error) else None)
      ensures Held() == HeldAfter(step, old(Held()), draws)
      ensures !DispatchesPick(step) && !(step.action == "start_with" && r.Ok?) ==> deck == old(deck) && Held() == old(Held())
      ensures DispatchesPick(step) ==> deck == old(deck) && (r, Held()) == PickOutcome(step.command, step.meta, old(Held()), draws)
      ensures step.action == "start_with" && r.Ok? ==>
        && (StartsDeck(step.command) ==>
              fresh(deck) && deck.variant == VariantFor(step.command.value) && deck.cards == FreshCards(deck.variant.eachCardOccurs))
        && (!StartsDeck(step.command) ==> deck == old(deck) && Held() == old(Held()))
        && r == Ok(if deck == null then NoneResult else DeckResult(deck))
      ensures step.action == "compare_picked" && r.Ok? ==> r == ComparePicked(step.command, step.meta, sequenceResults, currentSequence)
      ensures r.Ok? ==> Recorded(step, r.value, sequenceResults, currentSequence)
    {
      var invalid := Validate(step.action, step.command);
      if invalid.Some? {
        return Err(invalid.value);
      }
      if step.action !in HANDLED_ACTIONS {
        return Err(MissingHandler);
      }
      if !Accepts(step.action, step.meta) {
        return Err(UnexpectedArgument);
      }
      if step.action == "start_with" {
        r := ActionStartWith(step.command);
      } else if step.action == "pick" {
        r := ActionPick(step.command, step.meta, draws);
      } else {
        r := ActionComparePicked(step.command, step.meta);
      }
    }

    /** Storing one more recorded step keeps every earlier entry recorded against what it saw. */
    lemma RecordedExtends(ledger: map<int, StepResult>, v: StepResult, i: nat, next: map<int, StepResult>)
      requires i < |sequences| && Spans(ledger, i + 1) && next == ledger[i + 1 := v]
      requires forall k :: k in ledger ==>
        1 <= k <= |sequences| && Recorded(sequences[k - 1], ledger[k], Below(ledger, k), k)
      requires Recorded(sequences[i], v, ledger, i + 1)
      ensures forall k :: k in next ==>
        1 <= k <= |sequences| && Recorded(sequences[k - 1], next[k], Below(next, k), k)
    {
      forall k | k in next
        ensures Recorded(sequences[k - 1], next[k], Below(next, k), k)
      {
        BelowExtend(ledger, i + 1, v, k);
        if k == i + 1 {
          assert next[k] == v && Below(next, k) == ledger;
        } else {
          assert k in ledger && next[k] == ledger[k] && Below(next, k) == Below(ledger, k);
        }
      }
    }

    /** Storing one more step that ran keeps every earlier step's account of its run. */
    lemma RanExtends(ledger: map<int, StepResult>, v: StepResult, history: seq<Option<seq<Card>>>, i: nat,
                     draws: seq<seq<nat>>, next: map<int, StepResult>, nextHistory: seq<Option<seq<Card>>>)
      requires i < |sequences| && |draws| == |sequences| && |history| == i + 1
      requires forall j :: 0 <= j < |sequences| ==> DrawsNeeded(sequences[j].meta) <= |draws[j]|
      requires Spans(ledger, i + 1) && next == ledger[i + 1 := v]
      requires |nextHistory| == i + 2 && history == nextHistory[..i + 1]
      requires forall j :: 0 <= j < i ==>
        Ran(sequences[j], ledger[j + 1], Below(ledger, j + 1), j + 1, history[j], draws[j], history[j + 1])
      requires Ran(sequences[i], v, ledger, i + 1, history[i], draws[i], nextHistory[i + 1])
      ensures forall j :: 0 <= j <= i ==>
        Ran(sequences[j], next[j + 1], Below(next, j + 1), j + 1, nextHistory[j], draws[j], nextHistory[j + 1])
    {
      forall j | 0 <= j <= i
        ensures Ran(sequences[j], next[j + 1], Below(next, j + 1), j + 1, nextHistory[j], draws[j], nextHistory[j + 1])
      {
        BelowExtend(ledger, i + 1, v, j + 1);
      }
    }

    /**
     * `execute` after its first i steps ran: the ledger spans positions 1 to i, each entry is
     * recorded, and each step ran on the deck cards `history` gives for it.
     */
    ghost predicate RanSteps(i: nat, history: seq<Option<seq<Card>>>, draws: seq<seq<nat>>)
      requires i <= |sequences| && |draws| == |sequences| && |history| == i + 1
      requires forall j :: 0 <= j < |sequences| ==> DrawsNeeded(sequences[j].meta) <= |draws[j]|
      reads this`currentSequence, this`sequenceResults
    {
      && currentSequence == i + 1
      && Spans(sequenceResults, i + 1)
      && (forall k :: k in sequenceResults ==>
            1 <= k <= |sequences| && Recorded(sequences[k - 1], sequenceResults[k], Below(sequenceResults, k), k))
      && (forall j :: 0 <= j < i ==>
            Ran(sequences[j], sequenceResults[j + 1], Below(sequenceResults, j + 1), j + 1, history[j], draws[j], history[j + 1]))
    }

    /** One pass of `execute`'s loop: run step i + 1 and store its result, or stop with its error. */
    method ExecuteStep(i: nat, draws: seq<seq<nat>>, ghost history: seq<Option<seq<Card>>>) returns (outcome: Result<StepResult>)
      requires i < |sequences| && |draws| == |sequences| && |history| == i + 1
      requires forall j :: 0 <= j < |sequences| ==> DrawsNeeded(sequences[j].meta) <= |draws[j]|
      requires RanSteps(i, history, draws) && history[i] == Held()
      modifies this, deck
      ensures deck == old(deck) || fresh(deck)
      ensures old(deck) != null && deck != old(deck) ==> old(deck).cards == old(deck.cards)
      ensures deck != old(deck) ==> sequences[i].action == "start_with"
      ensures outcome.Err? ==>
        && deck == old(deck) && sequenceResults == old(sequenceResults) && currentSequence == old(currentSequence)
        && StepError(sequences[i], sequenceResults, i + 1, history[i], draws[i]) == Some(outcome.error)
        && Held() == HeldAfter(sequences[i], history[i], draws[i])
      ensures outcome.Ok? ==> RanSteps(i + 1, history + [Held()], draws)
    {
      outcome := ExecuteSequence(sequences[i], draws[i]);
      if outcome.Ok? {
        ghost var ledger := sequenceResults;
        assert Recorded(sequences[i], outcome.value, ledger, i + 1);
        assert Ran(sequences[i], outcome.value, ledger, i + 1, history[i], draws[i], Held());
        sequenceResults := sequenceResults[currentSequence := outcome.value];
        SpansExtend(ledger, i + 1, outcome.value);
        RecordedExtends(ledger, outcome.value, i, sequenceResults);
        RanExtends(ledger, outcome.value, history, i, draws, sequenceResults, history + [Held()]);
        currentSequence := currentSequence + 1;
      }
    }

    /**
     * `execute`: clear the ledger, run the steps in order and store step i's result under i.
     * The first failing step stops the run; the ledger keeps the results of the steps before it.
     * `history` lists what the held deck's cards were when each step began (None: no deck),
     * starting from the deck held before the run.
     */
    method Execute(draws: seq<seq<nat>>) returns (r: Result<map<int, StepResult>>, ghost history: seq<Option<seq<Card>>>)
      requires |draws| == |sequences|
      requires forall i :: 0 <= i < |sequences| ==> DrawsNeeded(sequences[i].meta) <= |draws[i]|
      modifies this, deck
      ensures 1 <= currentSequence <= |sequences| + 1
      ensures Spans(sequenceResults, currentSequence)
      ensures r.Ok? <==> currentSequence == |sequences| + 1
      ensures r.Ok? ==> r.value == sequenceResults
      ensures forall k :: k in sequenceResults ==>
        1 <= k <= |sequences| && Recorded(sequences[k - 1], sequenceResults[k], Below(sequenceResults, k), k)
      ensures |history| == currentSequence && history[0] == old(Held())
      ensures old(deck) != null && deck != old(deck) ==>
        exists k :: 0 <= k < currentSequence - 1 && sequences[k].action == "start_with" && history[k] == Some(old(deck).cards)
      ensures forall j :: 0 <= j < currentSequence - 1 ==>
        Ran(sequences[j], sequenceResults[j + 1], Below(sequenceResults, j + 1), j + 1, history[j], draws[j], history[j + 1])
      ensures r.Ok? ==> Held() == history[currentSequence - 1]
      ensures r.Err? ==>
        var failing := sequences[currentSequence - 1];
        var held := history[currentSequence - 1];
        && StepError(failing, sequenceResults, currentSequence, held, draws[currentSequence - 1]) == Some(r.error)
        && Held() == HeldAfter(failing, held, draws[currentSequence - 1])
    {
      currentSequence := 1;
      sequenceResults := map[];
      history := [Held()];
      var i := 0;
      while i < |sequences|
        invariant 0 <= i <= |sequences| && |history| == i + 1
        invariant RanSteps(i, history, draws)
        invariant deck == null || deck == old(deck) || fresh(deck)
        invariant old(deck) != null && deck != old(deck) ==>
          exists k :: 0 <= k < i && sequences[k].action == "start_with" && history[k] == Some(old(deck).cards)
        invariant history[0] == old(Held()) && history[i] == Held()
      {
        var outcome := ExecuteStep(i, draws, history);
        if outcome.Err? {
          r := Err(outcome.error);
          return;
        }
        history := history + [Held()];
        i := i + 1;
      }
      r := Ok(sequenceResults);
    }
  }
}
