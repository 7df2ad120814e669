/**
 * cards/models.py: the playing card, the deck and its two variants.
 *
 * A card is a value (a value key and a suit key). A deck is an object whose list of cards the
 * operations change in place; it is parameterised by its variant, the pair (NUMBER_OF_CARDS,
 * EACH_CARD_OCCURS). What a deck operation does to the list is given by a function on sequences
 * (FreshCards, RandomPicks, Shuffled, Inserted, RemoveFirst), and the properties the source
 * promises are proved about those functions.
 *
 * Randomness is an oracle: the k-th call of `random.randrange(len)` returns `draws[k] % len`,
 * so every outcome the generator can produce is the outcome of some oracle.
 */
module Models {

  import opened Exceptions
  import opened Seqs
  import opened Constants

  // ---------------------------------------------------------------------------------------------
  // Card

  datatype Card = Card(value: Key, suit: Key)

  /** A card both of whose attributes are keys of the lookup tables. */
  predicate IsTableCard(c: Card)
  {
    IsValueKey(c.value) && IsSuitKey(c.suit)
  }

  /** `Card.colour`: a lookup in the suit table (a KeyError for any other suit). */
  function Colour(c: Card): (colour: string)
    requires IsSuitKey(c.suit)
    ensures colour == COLOUR_RED <==> c.suit == SUIT_HEARTS || c.suit == SUIT_DIAMONDS
    ensures colour == COLOUR_BLACK <==> c.suit == SUIT_SPADES || c.suit == SUIT_CLUBS
  {
    CARD_SUITS_CONF[c.suit].colour
  }

  function SuitSymbol(c: Card): string
    requires IsSuitKey(c.suit)
  {
    CARD_SUITS_CONF[c.suit].symbol
  }

  function ValueSymbol(c: Card): string
    requires IsValueKey(c.value)
  {
    CARD_VALUES_CONF[c.value]
  }

  /** `Card.is_the_same_card`: equal suit and equal value, which is equality of the two card values. */
  function IsTheSameCard(a: Card, b: Card): (same: bool)
    ensures same <==> a == b
  {
    a.suit == b.suit && a.value == b.value
  }

  /** `str(card)`: the value symbol followed by the suit symbol. */
  function CardStr(c: Card): string
    requires IsTableCard(c)
  {
    ValueSymbol(c) + SuitSymbol(c)
  }

  lemma StrExamples()
    ensures CardStr(Card(Int(3), SUIT_SPADES)) == "3♠"
    ensures CardStr(Card(Int(10), SUIT_CLUBS)) == "10♣"
    ensures CardStr(Card(Int(13), SUIT_HEARTS)) == "K♥"
    ensures CardStr(Card(Int(1), SUIT_DIAMONDS)) == "A♦"
  {
  }

  /** Two table cards print alike only when they are the same card. */
  lemma StrInjective(a: Card, b: Card)
    requires IsTableCard(a) && IsTableCard(b)
    ensures CardStr(a) == CardStr(b) <==> a == b
  {
    if CardStr(a) == CardStr(b) {
      SymbolsDistinct();
      var n := |CardStr(a)|;
      assert |SuitSymbol(a)| == 1 && |SuitSymbol(b)| == 1;
      assert SuitSymbol(a) == CardStr(a)[n - 1..] == SuitSymbol(b);
      assert ValueSymbol(a) == CardStr(a)[..n - 1] == ValueSymbol(b);
    }
  }

  // ---------------------------------------------------------------------------------------------
  // Deck variants and the fresh deck

  /** A deck variant: NUMBER_OF_CARDS and EACH_CARD_OCCURS. */
  datatype Variant = Variant(numberOfCards: nat, eachCardOccurs: nat)

  /** StandardDeck. */
  const STANDARD_DECK: Variant := Variant(52, 1)

  /** JokerDeck: a standard deck included twice. */
  const JOKER_DECK: Variant := Variant(104, 2)

  /** The variant's size is what its composition produces: 52 table cards, each EACH times. */
  predicate Complete(v: Variant)
  {
    v.numberOfCards == 52 * v.eachCardOccurs
  }

  /** `is_valid_deck`: full, and every (suit, value) pair of the tables occurs EACH_CARD_OCCURS times. */
  ghost predicate ValidDeck(cards: seq<Card>, v: Variant)
  {
    && |cards| == v.numberOfCards
    && forall c :: IsTableCard(c) ==> multiset(cards)[c] == v.eachCardOccurs
  }

  /** `n` copies of `c`. */
  function Repeat(c: Card, n: nat): seq<Card>
  {
    if n == 0 then [] else Repeat(c, n - 1) + [c]
  }

  /** For one suit, each value of `values` in order, each `each` times consecutively. */
  function ValueRun(suit: Key, values: seq<Key>, each: nat): seq<Card>
  {
    if values == [] then []
    else ValueRun(suit, values[..|values| - 1], each) + Repeat(Card(values[|values| - 1], suit), each)
  }

  /** For each suit of `suits` in order, its value run. */
  function SuitRun(suits: seq<Key>, values: seq<Key>, each: nat): seq<Card>
  {
    if suits == [] then []
    else SuitRun(suits[..|suits| - 1], values, each) + ValueRun(suits[|suits| - 1], values, each)
  }

  lemma ValueRunStep(suit: Key, values: seq<Key>, j: nat, each: nat)
    requires j < |values|
    ensures ValueRun(suit, values[..j + 1], each) == ValueRun(suit, values[..j], each) + Repeat(Card(values[j], suit), each)
  {
    assert values[..j + 1][..j] == values[..j];
  }

  lemma SuitRunStep(suits: seq<Key>, i: nat, values: seq<Key>, each: nat)
    requires i < |suits|
    ensures SuitRun(suits[..i + 1], values, each) == SuitRun(suits[..i], values, each) + ValueRun(suits[i], values, each)
  {
    assert suits[..i + 1][..i] == suits[..i];
  }

  /** What `reset` builds: suits in table order, values ascending, each card EACH times in a row. */
  function FreshCards(each: nat): seq<Card>
  {
    SuitRun(SUIT_KEYS, VALUE_KEYS, each)
  }

  lemma {:induction false} RepeatCount(c: Card, n: nat, d: Card)
    ensures |Repeat(c, n)| == n
    ensures multiset(Repeat(c, n))[d] == if d == c then n else 0
  {
    if n > 0 {
      RepeatCount(c, n - 1, d);
    }
  }

  lemma MulMonotone(a: nat, b: nat, e: nat)
    requires a <= b
    ensures a * e <= b * e
  {
    assert b * e == a * e + (b - a) * e;
  }

  lemma MulPred(n: nat, e: nat)
    requires n >= 1
    ensures n * e == (n - 1) * e + e
  {
  }

  lemma {:induction false} ValueRunLength(suit: Key, values: seq<Key>, each: nat)
    ensures |ValueRun(suit, values, each)| == |values| * each
  {
    if values != [] {
      var n := |values|;
      var front := ValueRun(suit, values[..n - 1], each);
      var back := Repeat(Card(values[n - 1], suit), each);
      assert ValueRun(suit, values, each) == front + back;
      ValueRunLength(suit, values[..n - 1], each);
      RepeatCount(Card(values[n - 1], suit), each, Card(values[n - 1], suit));
      MulPred(n, each);
    }
  }

  lemma {:induction false} SuitRunLength(suits: seq<Key>, values: seq<Key>, each: nat)
    ensures |SuitRun(suits, values, each)| == |suits| * (|values| * each)
  {
    if suits != [] {
      var n := |suits|;
      var front := SuitRun(suits[..n - 1], values, each);
      var back := ValueRun(suits[n - 1], values, each);
      assert SuitRun(suits, values, each) == front + back;
      SuitRunLength(suits[..n - 1], values, each);
      ValueRunLength(suits[n - 1], values, each);
      MulPred(n, |values| * each);
    }
  }

  lemma {:induction false} ValueRunCount(suit: Key, values: seq<Key>, each: nat, c: Card)
    requires NoDuplicates(values)
    ensures multiset(ValueRun(suit, values, each))[c] ==
      if c.suit == suit && c.value in values then each else 0
  {
    if values != [] {
      var n := |values|;
      var init := values[..n - 1];
      var last := values[n - 1];
      ValueRunCount(suit, init, each, c);
      RepeatCount(Card(last, suit), each, c);
      var front := ValueRun(suit, init, each);
      var back := Repeat(Card(last, suit), each);
      assert ValueRun(suit, values, each) == front + back;
      assert multiset(front + back)[c] == multiset(front)[c] + multiset(back)[c];
      InInitOrLast(values, c.value);
    }
  }

  lemma SuitRunLast(suits: seq<Key>, values: seq<Key>, each: nat, c: Card)
    requires suits != []
    ensures multiset(SuitRun(suits, values, each))[c] ==
      multiset(SuitRun(suits[..|suits| - 1], values, each))[c] + multiset(ValueRun(suits[|suits| - 1], values, each))[c]
  {
    var front := SuitRun(suits[..|suits| - 1], values, each);
    var back := ValueRun(suits[|suits| - 1], values, each);
    assert SuitRun(suits, values, each) == front + back;
    assert multiset(front + back) == multiset(front) + multiset(back);
  }

  lemma {:induction false} SuitRunCount(suits: seq<Key>, values: seq<Key>, each: nat, c: Card)
    requires NoDuplicates(suits) && NoDuplicates(values)
    ensures multiset(SuitRun(suits, values, each))[c] ==
      if c.suit in suits && c.value in values then each else 0
  {
    if suits != [] {
      var n := |suits|;
      var init := suits[..n - 1];
      var last := suits[n - 1];
      SuitRunCount(init, values, each, c);
      ValueRunCount(last, values, each, c);
      SuitRunLast(suits, values, each, c);
      assert NoDuplicates(init) && last !in init;
      InInitOrLast(suits, c.suit);
    }
  }

  lemma {:induction false} ValueRunAt(suit: Key, values: seq<Key>, each: nat, v: nat, r: nat)
    requires v < |values| && r < each
    ensures v * each + r < |ValueRun(suit, values, each)|
    ensures ValueRun(suit, values, each)[v * each + r] == Card(values[v], suit)
  {
    var n := |values|;
    var init := values[..n - 1];
    ValueRunLength(suit, init, each);
    ValueRunLength(suit, values, each);
    RepeatCount(Card(values[n - 1], suit), each, Card(values[n - 1], suit));
    MulPred(n, each);
    if v < n - 1 {
      MulMonotone(v + 1, n - 1, each);
      assert (v + 1) * each == v * each + each;
      ValueRunAt(suit, init, each, v, r);
    } else {
      assert ValueRun(suit, values, each)[v * each + r] == Repeat(Card(values[n - 1], suit), each)[r];
      RepeatAt(Card(values[n - 1], suit), each, r);
    }
  }

  lemma {:induction false} RepeatAt(c: Card, n: nat, r: nat)
    requires r < n
    ensures r < |Repeat(c, n)| && Repeat(c, n)[r] == c
  {
    RepeatCount(c, n - 1, c);
    if r < n - 1 {
      RepeatAt(c, n - 1, r);
    }
  }

  lemma {:induction false} SuitRunAt(suits: seq<Key>, values: seq<Key>, each: nat, s: nat, x: nat)
    requires s < |suits| && x < |values| * each
    ensures s * (|values| * each) + x < |SuitRun(suits, values, each)|
    ensures |ValueRun(suits[s], values, each)| == |values| * each
    ensures SuitRun(suits, values, each)[s * (|values| * each) + x] == ValueRun(suits[s], values, each)[x]
  {
    var n := |suits|;
    var w := |values| * each;
    var init := suits[..n - 1];
    ValueRunLength(suits[s], values, each);
    SuitRunLength(init, values, each);
    SuitRunLength(suits, values, each);
    ValueRunLength(suits[n - 1], values, each);
    assert n * w == (n - 1) * w + w;
    if s < n - 1 {
      MulMonotone(s + 1, n - 1, w);
      assert (s + 1) * w == s * w + w;
      SuitRunAt(init, values, each, s, x);
    }
  }

  /** The fresh deck holds 52 * EACH cards. */
  lemma FreshCardsLength(each: nat)
    ensures |FreshCards(each)| == 52 * each
  {
    SuitRunLength(SUIT_KEYS, VALUE_KEYS, each);
  }

  /** Position (s * 13 + v) * EACH + r of the fresh deck holds the v-th value of the s-th suit. */
  lemma FreshCardsAt(each: nat, s: nat, v: nat, r: nat)
    requires s < 4 && v < 13 && r < each
    ensures (s * 13 + v) * each + r < |FreshCards(each)|
    ensures FreshCards(each)[(s * 13 + v) * each + r] == Card(VALUE_KEYS[v], SUIT_KEYS[s])
  {
    var x := v * each + r;
    ValueRunAt(SUIT_KEYS[s], VALUE_KEYS, each, v, r);
    ValueRunLength(SUIT_KEYS[s], VALUE_KEYS, each);
    SuitRunAt(SUIT_KEYS, VALUE_KEYS, each, s, x);
    FreshIndex(s, v, each, r);
  }

  lemma FreshIndex(s: nat, v: nat, each: nat, r: nat)
    ensures (s * 13 + v) * each + r == s * (13 * each) + (v * each + r)
  {
  }

  /** Every table card occurs EACH times in the fresh deck, and no other card occurs. */
  lemma FreshCardsCount(each: nat, c: Card)
    ensures multiset(FreshCards(each))[c] == if IsTableCard(c) then each else 0
  {
    KeyOrders();
    SuitRunCount(SUIT_KEYS, VALUE_KEYS, each, c);
  }

  /** A freshly reset deck of a complete variant is valid. */
  lemma FreshDeckIsValid(v: Variant)
    requires Complete(v)
    ensures ValidDeck(FreshCards(v.eachCardOccurs), v)
  {
    FreshCardsLength(v.eachCardOccurs);
    forall c | IsTableCard(c)
      ensures multiset(FreshCards(v.eachCardOccurs))[c] == v.eachCardOccurs
    {
      FreshCardsCount(v.eachCardOccurs, c);
    }
  }

  /** For a complete variant, a valid deck is exactly a rearrangement of the fresh deck. */
  lemma ValidIffPermutationOfFresh(cards: seq<Card>, v: Variant)
    requires Complete(v)
    ensures ValidDeck(cards, v) <==> multiset(cards) == multiset(FreshCards(v.eachCardOccurs))
  {
    var each := v.eachCardOccurs;
    var full := multiset(FreshCards(each));
    FreshCardsLength(each);
    if ValidDeck(cards, v) {
      forall c | true
        ensures full[c] <= multiset(cards)[c]
      {
        FreshCardsCount(each, c);
      }
      assert full <= multiset(cards);
      SubMultisetOfSameSize(full, multiset(cards));
    }
    if multiset(cards) == full {
      assert |cards| == |multiset(cards)| == |full|;
      forall c | IsTableCard(c)
        ensures multiset(cards)[c] == each
      {
        FreshCardsCount(each, c);
      }
    }
  }

  /** Validity depends only on which cards the deck holds, not on their order. */
  lemma ValidDeckIgnoresOrder(a: seq<Card>, b: seq<Card>, v: Variant)
    requires multiset(a) == multiset(b)
    ensures ValidDeck(a, v) <==> ValidDeck(b, v)
  {
    assert |a| == |multiset(a)| == |multiset(b)| == |b|;
  }

  // ---------------------------------------------------------------------------------------------
  // Deck operations on the list of cards

  /** Python's `range(0, n)` has this many elements. */
  function RangeLength(n: int): nat
  {
    if n < 0 then 0 else n
  }

  /** `pick_random_cards`: n times, pop the card at the drawn index; (picked in draw order, rest). */
  function RandomPicks(cards: seq<Card>, n: nat, draws: seq<nat>): (seq<Card>, seq<Card>)
    requires n <= |cards| && n <= |draws|
  {
    if n == 0 then ([], cards)
    else
      var i := draws[0] % |cards|;
      var after := RandomPicks(RemoveAt(cards, i), n - 1, draws[1..]);
      ([cards[i]] + after.0, after.1)
  }

  /** Picking n random cards yields n cards, leaves n fewer, and loses or invents no card. */
  lemma {:induction false} RandomPicksSplit(cards: seq<Card>, n: nat, draws: seq<nat>)
    requires n <= |cards| && n <= |draws|
    ensures |RandomPicks(cards, n, draws).0| == n
    ensures |RandomPicks(cards, n, draws).1| == |cards| - n
    ensures multiset(cards) == multiset(RandomPicks(cards, n, draws).0) + multiset(RandomPicks(cards, n, draws).1)
  {
    if n > 0 {
      var i := draws[0] % |cards|;
      RandomPicksSplit(RemoveAt(cards, i), n - 1, draws[1..]);
      MultisetRemoveAt(cards, i);
    }
  }

  /** Picking one card from a valid deck and inserting it back (without force) restores validity. */
  lemma RandomPickThenInsertRestoresValid(cards: seq<Card>, v: Variant, draws: seq<nat>)
    requires Complete(v) && ValidDeck(cards, v) && 1 <= |cards| && 1 <= |draws|
    ensures |RandomPicks(cards, 1, draws).0| == 1
    ensures var picks := RandomPicks(cards, 1, draws);
      && Inserted(picks.1, v, picks.0[0], false) == Ok(picks.1 + picks.0)
      && ValidDeck(picks.1 + picks.0, v)
  {
    var i := draws[0] % |cards|;
    assert RandomPicks(RemoveAt(cards, i), 0, draws[1..]) == ([], RemoveAt(cards, i));
    assert [cards[i]] + [] == [cards[i]];
    assert RandomPicks(cards, 1, draws) == ([cards[i]], RemoveAt(cards, i));
    PickThenInsertRestoresValid(cards, v, i);
  }

  /** Swapping positions i and j of a list. */
  function Swap(s: seq<Card>, i: nat, j: nat): (r: seq<Card>)
    requires i < |s| && j < |s|
  {
    s[i := s[j]][j := s[i]]
  }

  lemma SwapPermutes(s: seq<Card>, i: nat, j: nat)
    requires i < |s| && j < |s|
    ensures |Swap(s, i, j)| == |s| && multiset(Swap(s, i, j)) == multiset(s)
  {
    var t := s[i := s[j]];
    assert multiset(t) == multiset(s) - multiset{s[i]} + multiset{s[j]};
    assert multiset(t[j := s[i]]) == multiset(t) - multiset{t[j]} + multiset{s[i]};
  }

  /**
   * `random.shuffle` (CPython's Fisher-Yates): for i from the last position down to 1, swap
   * position i with a drawn position j in 0..i; here the draws are consumed front to back.
   */
  function ShuffleDown(s: seq<Card>, i: nat, draws: seq<nat>): seq<Card>
    requires i < |s| && i <= |draws|
    decreases i
  {
    if i == 0 then s
    else ShuffleDown(Swap(s, i, draws[0] % (i + 1)), i - 1, draws[1..])
  }

  function Shuffled(s: seq<Card>, draws: seq<nat>): seq<Card>
    requires |s| <= |draws| + 1
  {
    if |s| == 0 then s else ShuffleDown(s, |s| - 1, draws)
  }

  lemma {:induction false} ShuffleDownPermutes(s: seq<Card>, i: nat, draws: seq<nat>)
    requires i < |s| && i <= |draws|
    ensures |ShuffleDown(s, i, draws)| == |s|
    ensures multiset(ShuffleDown(s, i, draws)) == multiset(s)
    decreases i
  {
    if i > 0 {
      SwapPermutes(s, i, draws[0] % (i + 1));
      ShuffleDownPermutes(Swap(s, i, draws[0] % (i + 1)), i - 1, draws[1..]);
    }
  }

  /** Shuffling keeps the size and the cards; so a valid deck stays valid. */
  lemma ShufflePermutes(s: seq<Card>, draws: seq<nat>, v: Variant)
    requires |s| <= |draws| + 1
    ensures |Shuffled(s, draws)| == |s|
    ensures multiset(Shuffled(s, draws)) == multiset(s)
    ensures ValidDeck(Shuffled(s, draws), v) <==> ValidDeck(s, v)
  {
    if |s| > 0 {
      ShuffleDownPermutes(s, |s| - 1, draws);
    }
    ValidDeckIgnoresOrder(Shuffled(s, draws), s, v);
  }

  /**
   * `insert_card`: the capacity check first, then (without force) the occurrence cap, then append.
   * The cap error's message prints the card, so a card outside the tables raises the KeyError of
   * its symbol lookup instead of IncorrectDeckException.
   */
  function Inserted(cards: seq<Card>, v: Variant, card: Card, force: bool): Result<seq<Card>>
  {
    if |cards| >= v.numberOfCards && !force then Err(DeckFull)
    else if !force && multiset(cards)[card] > v.eachCardOccurs - 1 then
      (if IsTableCard(card) then Err(IncorrectDeck) else Err(UnknownKey))
    else Ok(cards + [card])
  }

  /** Outcome of inserting: which error wins, and what a successful or forced insert adds. */
  lemma InsertOutcomes(cards: seq<Card>, v: Variant, card: Card)
    ensures Inserted(cards, v, card, true) == Ok(cards + [card])
    ensures |cards| >= v.numberOfCards ==> Inserted(cards, v, card, false) == Err(DeckFull)
    ensures |cards| < v.numberOfCards ==>
      (Inserted(cards, v, card, false) == Err(IncorrectDeck) <==>
         multiset(cards)[card] >= v.eachCardOccurs && IsTableCard(card))
    ensures |cards| < v.numberOfCards ==>
      (Inserted(cards, v, card, false) == Err(UnknownKey) <==>
         multiset(cards)[card] >= v.eachCardOccurs && !IsTableCard(card))
    ensures Inserted(cards, v, card, false).Ok? ==>
      multiset(Inserted(cards, v, card, false).value)[card] == multiset(cards)[card] + 1 <= v.eachCardOccurs
  {
  }

  /** A deck that is not over capacity and holds no card beyond its cap. */
  ghost predicate WithinCaps(cards: seq<Card>, v: Variant)
  {
    |cards| <= v.numberOfCards && forall c :: multiset(cards)[c] <= v.eachCardOccurs
  }

  /** Inserting without force never takes a deck beyond its capacity or a card beyond its cap. */
  lemma InsertKeepsCaps(cards: seq<Card>, v: Variant, card: Card)
    requires WithinCaps(cards, v)
    ensures Inserted(cards, v, card, false).Ok? ==> WithinCaps(Inserted(cards, v, card, false).value, v)
  {
  }

  /**
   * Taking any card out of a valid deck and inserting it back without force succeeds and makes the
   * deck valid again; inserting it once more with force makes the deck invalid.
   */
  lemma PickThenInsertRestoresValid(cards: seq<Card>, v: Variant, i: nat)
    requires Complete(v) && ValidDeck(cards, v) && i < |cards|
    ensures Inserted(RemoveAt(cards, i), v, cards[i], false) == Ok(RemoveAt(cards, i) + [cards[i]])
    ensures ValidDeck(RemoveAt(cards, i) + [cards[i]], v)
    ensures !ValidDeck(RemoveAt(cards, i) + [cards[i]] + [cards[i]], v)
  {
    var c := cards[i];
    var rest := RemoveAt(cards, i);
    MultisetRemoveAt(cards, i);
    ValidIffPermutationOfFresh(cards, v);
    FreshCardsCount(v.eachCardOccurs, c);
    assert c in multiset(cards);
    assert IsTableCard(c);
    assert multiset(rest)[c] == v.eachCardOccurs - 1;
    assert multiset(rest + [c]) == multiset(cards);
    ValidDeckIgnoresOrder(rest + [c], cards, v);
  }

  /**
   * `pick_card` followed by a forced re-insert gives the card's count and the deck's size back,
   * and the card picked is the first one equal to the request.
   */
  lemma PickCardThenForceInsert(cards: seq<Card>, card: Card)
    requires card in cards
    ensures multiset(RemoveFirst(cards, card))[card] == multiset(cards)[card] - 1
    ensures |RemoveFirst(cards, card) + [card]| == |cards|
    ensures multiset(RemoveFirst(cards, card) + [card]) == multiset(cards)
    ensures RemoveFirst(cards, card) == cards[..FirstIndex(cards, card)] + cards[FirstIndex(cards, card) + 1..]
  {
    MultisetRemoveFirst(cards, card);
  }

  // ---------------------------------------------------------------------------------------------
  // The deck object

  /** StandardDeck and JokerDeck: a list of cards changed in place, and the variant's constants. */
  class Deck {
    const variant: Variant
    var cards: seq<Card>

    /** Construction resets the deck. */
    constructor (variant: Variant)
      ensures this.variant == variant
      ensures cards == FreshCards(variant.eachCardOccurs)
    {
      this.variant := variant;
      new;
      Reset();
    }

    predicate IsFull()
      reads this
    {
      |cards| == variant.numberOfCards
    }

    predicate IsOverFilled()
      reads this
    {
      |cards| > variant.numberOfCards
    }

    function IsFullOrOverfilled(): (b: bool)
      reads this
      ensures b <==> |cards| >= variant.numberOfCards
      ensures b <==> !(|cards| < variant.numberOfCards)
    {
      IsFull() || IsOverFilled()
    }

    /** `card_occurrence_count`: how many cards of the list are the same card as `card`. */
    method CardOccurrenceCount(card: Card) returns (occurrences: nat)
      ensures occurrences == multiset(cards)[card]
      ensures occurrences == 0 <==> card !in cards
    {
      occurrences := 0;
      var i := 0;
      while i < |cards|
        invariant 0 <= i <= |cards|
        invariant occurrences == multiset(cards[..i])[card]
      {
        assert cards[..i + 1] == cards[..i] + [cards[i]];
        if IsTheSameCard(cards[i], card) {
          occurrences := occurrences + 1;
        }
        i := i + 1;
      }
      assert cards[..i] == cards;
    }

    /** `is_valid_deck`: full, then every suit and value of the tables checked in table order. */
    method IsValidDeck() returns (valid: bool)
      ensures valid == ValidDeck(cards, variant)
    {
      if !IsFull() {
        return false;
      }
      KeyOrders();
      var i := 0;
      while i < |SUIT_KEYS|
        invariant 0 <= i <= |SUIT_KEYS|
        invariant forall c :: IsTableCard(c) && c.suit in SUIT_KEYS[..i] ==> multiset(cards)[c] == variant.eachCardOccurs
      {
        var j := 0;
        while j < |VALUE_KEYS|
          invariant 0 <= j <= |VALUE_KEYS|
          invariant forall c :: IsTableCard(c) && c.suit in SUIT_KEYS[..i] ==> multiset(cards)[c] == variant.eachCardOccurs
          invariant forall c: Card :: c.suit == SUIT_KEYS[i] && c.value in VALUE_KEYS[..j] ==> multiset(cards)[c] == variant.eachCardOccurs
        {
          var card := Card(VALUE_KEYS[j], SUIT_KEYS[i]);
          var count := CardOccurrenceCount(card);
          if count != variant.eachCardOccurs {
            assert IsTableCard(card);
            return false;
          }
          assert VALUE_KEYS[..j + 1] == VALUE_KEYS[..j] + [VALUE_KEYS[j]];
          j := j + 1;
        }
        assert VALUE_KEYS[..j] == VALUE_KEYS;
        assert SUIT_KEYS[..i + 1] == SUIT_KEYS[..i] + [SUIT_KEYS[i]];
        i := i + 1;
      }
      assert SUIT_KEYS[..i] == SUIT_KEYS;
      return true;
    }

    /** `reset`: rebuild the list suit by suit, value by value, EACH_CARD_OCCURS copies each. */
    method Reset()
      modifies this
      ensures cards == FreshCards(variant.eachCardOccurs)
    {
      cards := [];
      var i := 0;
      while i < |SUIT_KEYS|
        invariant 0 <= i <= |SUIT_KEYS|
        invariant cards == SuitRun(SUIT_KEYS[..i], VALUE_KEYS, variant.eachCardOccurs)
      {
        AppendSuit(SUIT_KEYS[i]);
        SuitRunStep(SUIT_KEYS, i, VALUE_KEYS, variant.eachCardOccurs);
        i := i + 1;
      }
      assert SUIT_KEYS[..i] == SUIT_KEYS;
    }

    /** The two inner loops of `reset`, for one suit. */
    method AppendSuit(suit: Key)
      modifies this
      ensures cards == old(cards) + ValueRun(suit, VALUE_KEYS, variant.eachCardOccurs)
    {
      var j := 0;
      while j < |VALUE_KEYS|
        invariant 0 <= j <= |VALUE_KEYS|
        invariant cards == old(cards) + ValueRun(suit, VALUE_KEYS[..j], variant.eachCardOccurs)
      {
        ghost var done := ValueRun(suit, VALUE_KEYS[..j], variant.eachCardOccurs);
        var card := Card(VALUE_KEYS[j], suit);
        AppendCopies(card);
        ValueRunStep(suit, VALUE_KEYS, j, variant.eachCardOccurs);
        assert cards == old(cards) + (done + Repeat(card, variant.eachCardOccurs));
        j := j + 1;
      }
      assert VALUE_KEYS[..j] == VALUE_KEYS;
    }

    /** The innermost loop of `reset`: EACH_CARD_OCCURS copies of one card. */
    method AppendCopies(card: Card)
      modifies this
      ensures cards == old(cards) + Repeat(card, variant.eachCardOccurs)
    {
      var k := 0;
      while k < variant.eachCardOccurs
        invariant 0 <= k <= variant.eachCardOccurs
        invariant cards == old(cards) + Repeat(card, k)
      {
        cards := cards + [card];
        k := k + 1;
      }
    }

    /** `shuffle`: `random.shuffle` of the list, driven by the oracle. */
    method Shuffle(draws: seq<nat>)
      requires |cards| <= |draws| + 1
      modifies this
      ensures cards == Shuffled(old(cards), draws)
    {
      cards := Shuffled(cards, draws);
    }

    /** `pick_random_cards`: refuse before touching the list, then pop a drawn index n times. */
    method PickRandomCards(n: int, draws: seq<nat>) returns (r: Result<seq<Card>>)
      requires n <= |cards| ==> n <= |draws|
      modifies this
      ensures n > |old(cards)| ==> r == Err(NotEnoughCards) && cards == old(cards)
      ensures n <= |old(cards)| ==>
        && r == Ok(RandomPicks(old(cards), RangeLength(n), draws).0)
        && cards == RandomPicks(old(cards), RangeLength(n), draws).1
    {
      if n > |cards| {
        return Err(NotEnoughCards);
      }
      ghost var m := RangeLength(n);
      var picked: seq<Card> := [];
      var k := 0;
      assert draws[0..] == draws;
      assert picked + RandomPicks(cards, m, draws).0 == RandomPicks(cards, m, draws).0;
      while k < n
        invariant 0 <= k <= m
        invariant |cards| == |old(cards)| - k
        invariant RandomPicks(old(cards), m, draws).0 == picked + RandomPicks(cards, m - k, draws[k..]).0
        invariant RandomPicks(old(cards), m, draws).1 == RandomPicks(cards, m - k, draws[k..]).1
      {
        var idx := draws[k] % |cards|;
        ghost var later := RandomPicks(RemoveAt(cards, idx), m - k - 1, draws[k + 1..]);
        assert draws[k..][1..] == draws[k + 1..];
        assert RandomPicks(cards, m - k, draws[k..]) == ([cards[idx]] + later.0, later.1);
        assert picked + ([cards[idx]] + later.0) == (picked + [cards[idx]]) + later.0;
        picked := picked + [cards[idx]];
        cards := RemoveAt(cards, idx);
        k := k + 1;
      }
      assert k == m;
      assert RandomPicks(cards, 0, draws[k..]) == ([], cards);
      assert picked + [] == picked;
      r := Ok(picked);
    }

    /** `pick_random_card`: the first card of a one-card random pick. */
    method PickRandomCard(draws: seq<nat>) returns (r: Result<Card>)
      requires 1 <= |cards| ==> 1 <= |draws|
      modifies this
      ensures |old(cards)| == 0 ==> r == Err(NotEnoughCards) && cards == old(cards)
      ensures |old(cards)| > 0 ==>
        var i := draws[0] % |old(cards)|;
        r == Ok(old(cards)[i]) && cards == RemoveAt(old(cards), i)
    {
      ghost var before := cards;
      var picked := PickRandomCards(1, draws);
      if picked.Err? {
        return Err(picked.error);
      }
      RandomPicksSplit(before, 1, draws);
      r := Ok(picked.value[0]);
    }

    /** `pick_card`: refuse if absent, otherwise pop the first card that is the same card. */
    method PickCard(card: Card) returns (r: Result<Card>)
      modifies this
      ensures card !in old(cards) ==> r == Err(CardIsNotInTheDeck) && cards == old(cards)
      ensures card in old(cards) ==> r == Ok(card) && cards == RemoveFirst(old(cards), card)
    {
      var occurrences := CardOccurrenceCount(card);
      if occurrences == 0 {
        return Err(CardIsNotInTheDeck);
      }
      var idx := 0;
      while !IsTheSameCard(cards[idx], card)
        invariant 0 <= idx < |cards|
        invariant card in cards[idx..]
        invariant forall j :: 0 <= j < idx ==> cards[j] != card
        decreases |cards| - idx
      {
        assert cards[idx..] == [cards[idx]] + cards[idx + 1..];
        idx := idx + 1;
      }
      assert idx == FirstIndex(cards, card);
      r := Ok(cards[idx]);
      cards := RemoveAt(cards, idx);
    }

    /** `insert_card`: DeckFull before IncorrectDeck (or UnknownKey), both skipped with force; append on success. */
    method InsertCard(card: Card, force: bool) returns (r: Result<()>)
      modifies this
      ensures var o := Inserted(old(cards), variant, card, force);
        && (o.Ok? ==> r == Ok(()) && cards == o.value)
        && (o.Err? ==> r == Err(o.error) && cards == old(cards))
    {
      if IsFullOrOverfilled() && !force {
        return Err(DeckFull);
      }
      if !force {
        var occurrences := CardOccurrenceCount(card);
        if occurrences > variant.eachCardOccurs - 1 {
          if !IsTableCard(card) {
            return Err(UnknownKey);
          }
          return Err(IncorrectDeck);
        }
      }
      cards := cards + [card];
      r := Ok(());
    }
  }
}
