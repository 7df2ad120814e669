# cards: a verified model of the deck and the sequencing language

The `cards` package simulates decks of playing cards so that the probability of card-game events
can be estimated. This project models three parts of it in Dafny:

- **The card tables** (`cards/constants.py`): the thirteen values with their symbols, the four
  suits with their colour and symbol, and the joker sentinels. Each dictionary is a `map` together
  with the sequence of its keys in insertion order, because that order decides how a fresh deck is
  laid out.
- **Cards and decks** (`cards/models.py`). A `Card` is a value with a value key and a suit key. A
  deck is a `class` whose list of cards is changed in place. It is parameterised by its variant,
  the pair (NUMBER_OF_CARDS, EACH_CARD_OCCURS): StandardDeck is (52, 1) and JokerDeck is (104, 2).
  Each deck method is proved against a function on sequences that says what it does to the list
  (`FreshCards`, `RandomPicks`, `Shuffled`, `Inserted`, `RemoveFirst`). The properties the code and
  its docstrings promise are proved about those functions:
  - reset yields a valid deck;
  - validity means "a rearrangement of the fresh deck";
  - shuffling and picking lose or invent no card;
  - putting a picked card back without force restores validity.
- **The sequencing language** (`cards/language.py`). A list of steps (action, command, keyword
  arguments) is validated against the action table and dispatched to the `action_<name>` handlers.
  Results go into a ledger keyed by the step's 1-based position. The three comparison rules of
  `compare_picked` (any, all and order) are loops proved against functions, and those functions are
  characterised by lemmas:
  - any_match counts matches and does not depend on the order of the picked cards;
  - all_match is multiset containment of the compared prefix;
  - order_match is positional agreement, with an IndexError exactly when more cards were picked than
    listed.

  `Execute` ties every ledger entry to what its step did, given the ledger that step saw and the
  cards the held deck had then, and ties a stopped run to the error of the step that stopped it.

Randomness is an oracle. The k-th call of `random.randrange(len)` returns `draws[k] % len`, so every
outcome the generator can produce is the outcome of some list of draws. Python exceptions become
`Err` values of `Exceptions.Error`. The first four cases are the classes of `cards/exceptions.py`,
and the rest stand for the built-in errors the interpreter raises on malformed input.

Files: `exceptions.dfy` (errors, `Option`, `Result`), `seqs.dfy` (`list.pop`, `list.remove`,
duplicate-free lists), `constants.dfy`, `models.dfy`, `language.dfy`.

## Model

| member | source | states |
|---|---|---|
| `Constants.KeyOrders` | cards/constants.py:10-31 | the key orders list exactly the table keys, once each; values are 1..13 ascending; there are 4 suits |
| `Constants.SuitColours` | cards/constants.py:26-34 | hearts and diamonds are exactly the red suits and spades and clubs the black ones; the joker sentinels are not table keys |
| `Constants.SymbolsDistinct` | cards/constants.py:10-31 | each suit symbol is one character; no two suits and no two values share a symbol |
| `Models.Colour` | cards/models.py:14-16 | a card's colour is red iff its suit is hearts or diamonds, and black iff spades or clubs; defined only for table suits (a KeyError otherwise) |
| `Models.IsTheSameCard` | cards/models.py:26-33 | two cards are the same card iff they are equal as values (same suit and same value) |
| `Models.StrExamples` | cards/models.py:35-39 | `str` writes the value symbol and then the suit symbol, e.g. "10♣" and "K♥" |
| `Models.StrInjective` | cards/models.py:35-39 | two table cards print alike iff they are the same card |
| `Models.FreshCardsLength` | cards/models.py:101-109 | reset builds 52 * EACH_CARD_OCCURS cards |
| `Models.FreshCardsAt` | cards/models.py:101-109 | position (s*13+v)*EACH+r of a reset deck holds the v-th value of the s-th suit, suits and values in table order and each card's copies adjacent |
| `Models.FreshCardsCount` | cards/models.py:101-109 | after reset each table card occurs EACH_CARD_OCCURS times and no other card occurs |
| `Models.FreshDeckIsValid` | cards/models.py:74-87 | a reset deck of either variant passes `is_valid_deck` |
| `Models.ValidIffPermutationOfFresh` | cards/models.py:74-87 | a deck is valid iff it holds the same multiset of cards as a reset deck |
| `Models.ValidDeckIgnoresOrder` | cards/models.py:74-87 | validity depends only on which cards the list holds, not on their order |
| `Models.RandomPicksSplit` | cards/models.py:125-138 | picking n random cards returns n cards and leaves n fewer, and together they are the cards held before |
| `Models.RandomPickThenInsertRestoresValid` | cards/models.py:117-173 | a random card picked from a valid deck can be inserted back without force, and the deck is valid again |
| `Models.ShufflePermutes` | cards/models.py:111-115 | shuffling keeps the size and the multiset of cards, and so validity |
| `Models.InsertOutcomes` | cards/models.py:153-173 | a forced insert always appends; without force a full or over-filled deck gives DeckFull first, and otherwise, for a card already at its cap, IncorrectDeck when the card is a table card and UnknownKey (the KeyError of printing the card for the message) when it is not; a successful insert raises the card's count by one, up to the cap |
| `Models.InsertKeepsCaps` | cards/models.py:153-173 | inserting without force never takes the deck over its size or a card over its cap |
| `Models.PickThenInsertRestoresValid` | cards/models.py:140-173 | any card taken out of a valid deck can be inserted back without force and the deck is valid again; forcing a second copy in makes it invalid |
| `Models.PickCardThenForceInsert` | cards/models.py:140-173 | `pick_card` removes the first card equal to the request, lowering its count by one; a forced re-insert restores the size and the multiset |
| `Models.Deck.constructor` | cards/models.py:50-52 | a new deck of a variant holds the reset layout |
| `Models.Deck.IsFullOrOverfilled` | cards/models.py:54-72 | full or over-filled iff the deck holds at least NUMBER_OF_CARDS cards |
| `Models.Deck.CardOccurrenceCount` | cards/models.py:89-99 | the count is the card's multiplicity in the deck, and 0 iff the card is absent |
| `Models.Deck.IsValidDeck` | cards/models.py:74-87 | the answer is: full, and every table card occurs exactly EACH_CARD_OCCURS times |
| `Models.Deck.Reset` | cards/models.py:101-109 | the list becomes the fresh layout (suit by suit, value by value, EACH copies in a row) |
| `Models.Deck.Shuffle` | cards/models.py:111-115 | the list becomes CPython's Fisher-Yates shuffle of itself, driven by the draws |
| `Models.Deck.PickRandomCards` | cards/models.py:125-138 | more cards than held gives NotEnoughCards and the deck is untouched; otherwise the n cards popped at the drawn indices are returned in order and the rest remain |
| `Models.Deck.PickRandomCard` | cards/models.py:117-123 | an empty deck gives NotEnoughCards; otherwise the card at the drawn index is returned and removed |
| `Models.Deck.PickCard` | cards/models.py:140-151 | an absent card gives CardIsNotInTheDeck and the deck is untouched; otherwise the card is returned and the first equal card is removed |
| `Models.Deck.InsertCard` | cards/models.py:153-173 | the outcome and the new list are those of `Inserted`, including UnknownKey for a card outside the tables at its cap; on an error the list is untouched |
| `Language.ValidateAccepts` | cards/language.py:25-30 | a step passes validation iff its action is in the table and a truthy command is listed under it; UnsupportedAction iff the action is unknown; a falsy command is never refused |
| `Language.UnhandledActions` | cards/language.py:12-32 | shuffle, reset, insert and insert_force pass validation but have no handler; reset refuses every truthy command |
| `Language.PickSpecificSucceeds` | cards/language.py:123-130 | picking specific cards succeeds iff the deck holds each requested card as often as requested; it then returns the requests in order and removes exactly them |
| `Language.PickSpecificFails` | cards/language.py:123-130 | a failed specific pick reports CardIsNotInTheDeck after removing a prefix of the requests, and the next request is absent from what remained |
| `Language.MatchCountAppend` | cards/language.py:56-72 | the any_match count of two lists of picked cards added together is the sum of their counts |
| `Language.MatchCountIgnoresOrder` | cards/language.py:56-72 | the any_match count is the same for any order of the picked cards |
| `Language.MatchCountPositive` | cards/language.py:56-72 | with the default of one required match, any_match holds iff some picked card matches |
| `Language.AnyMatch` | cards/language.py:56-72 | the loop returns "count of matches reaches matches_required", or UnknownSuit if a colour lookup fails |
| `Language.AllMatchNoCriteria` | cards/language.py:73-95 | with no criterion list at all, all_match holds for any picked cards |
| `Language.ConsumeContainment` | cards/language.py:73-95 | checking elements one by one against a list and removing each match succeeds iff the first len(list) elements are contained in the list, counting multiplicity |
| `Language.AllMatchValuesConsume` | cards/language.py:80-84 | all_match with only a value list consumes the picked cards' values from that list |
| `Language.AllMatchCardsConsume` | cards/language.py:85-89 | all_match with only a card list consumes the picked cards from that list |
| `Language.AllMatchValues` | cards/language.py:73-95 | with a value list L, all_match holds iff the first len(L) values of the picked cards are contained in L counting multiplicity |
| `Language.AllMatchCards` | cards/language.py:73-95 | with a card list L, all_match holds iff the first len(L) picked cards are contained in L counting multiplicity |
| `Language.AllMatchSuitsConsume` | cards/language.py:90-94 | all_match with only a suit list consumes the picked cards' suits from that list |
| `Language.AllMatchSuits` | cards/language.py:73-95 | with a suit list L, all_match holds iff the first len(L) suits of the picked cards are contained in L counting multiplicity |
| `Language.AllMatchColoursConsume` | cards/language.py:75-79 | all_match with only a colour list, when the cards it reaches have table suits, consumes their colours from that list |
| `Language.AllMatchUnknownSuitConsume` | cards/language.py:75-79 | all_match with only a colour list reaches a card of unknown suit at position i < len(L) iff the colours before it are consumed, and then raises UnknownSuit; otherwise it is false |
| `Language.AllMatchColours` | cards/language.py:73-95 | with a colour list L and table suits among the first len(L) picked cards, all_match holds iff their colours are contained in L counting multiplicity |
| `Language.AllMatchUnknownSuit` | cards/language.py:73-95 | with a colour list L and the first card of unknown suit at position i < len(L), all_match raises UnknownSuit iff the colours before it are contained in L counting multiplicity, and is false otherwise |
| `Language.AllMatch` | cards/language.py:73-95 | the loop, with criterion lists copied and consumed, returns the value of `AllMatchFrom` |
| `Language.OrderMatchValues` | cards/language.py:96-110 | with a value list, order_match is true iff the picked values agree with the list position by position and there are no more of them; false iff some position differs; IndexError iff more were picked and all listed positions agree |
| `Language.OrderMatchCards` | cards/language.py:96-110 | the same three-way characterisation for a card list |
| `Language.OrderMatchSuits` | cards/language.py:96-110 | the same three-way characterisation for a suit list |
| `Language.OrderMatchColours` | cards/language.py:96-110 | with a colour list, where the colour is looked up before the list is indexed: true iff every remaining card has a table suit whose colour agrees position by position and there are no more cards than entries; false iff the first disagreeing position is within the list and holds the other colour; UnknownSuit iff it holds a card of unknown suit; IndexError iff all listed positions agree and the next card has a table suit |
| `Language.OrderMatch` | cards/language.py:96-110 | the loop over positions returns the value of `OrderMatchFrom` for the active criterion |
| `Language.IdentityRejectsEqualCards` | cards/language.py:85-106 | as written, all_match and order_match answer false when asked whether the picked cards are exactly the listed cards; compared by value they answer true |
| `Language.ComparePickedReadsEarlier` | cards/language.py:46-58 | during an execution a successful comparison reads an earlier step's list of cards, by default the step immediately before it |
| `Language.Language.constructor` | cards/language.py:22-23 | a new interpreter holds the steps, no deck and an empty ledger |
| `Language.Language.ActionStartWith` | cards/language.py:112-121 | a deck command replaces the held deck with a fresh, reset deck of the named kind; any other command keeps it; the held deck (or None) is returned |
| `Language.Language.ActionPick` | cards/language.py:123-130 | the result and the deck's new cards are `PickOutcome`'s: random_cards gives NoDeck without a deck, otherwise the outcome of `pick_random_cards`; specific_cards gives [] for no request, NoDeck without a deck, otherwise the outcome of `PickSpecific`; any other command is an unbound result |
| `Language.Language.ActionComparePicked` | cards/language.py:46-110 | the result is `ComparePicked` over the current ledger: a missing entry gives MissingResult, an entry that is not a card list NotIterable, a command other than the three rules None |
| `Language.Language.ExecuteSequence` | cards/language.py:25-32 | the step fails exactly with `StepError`: a validation error first, then a missing handler, then an unexpected keyword argument, then the handler's error; the held deck's cards become `HeldAfter`'s; a dispatched pick has `PickOutcome`'s result, a start_with builds a fresh reset deck of the named kind and succeeds, a compare_picked has `ComparePicked`'s result; a successful result is `Recorded` for its step; a deck that a start_with replaces keeps its cards |
| `Language.Language.ExecuteStep` | cards/language.py:37-43 | one pass of the loop: a failing step leaves the ledger and position as they were and fails with `StepError`, the deck stays the same object, and the deck's cards become `HeldAfter`'s; only a start_with replaces the deck, and the replaced deck keeps its cards; a step that succeeds is stored under its position, and the ledger and history still account for every step run so far |
| `Language.Language.Execute` | cards/language.py:34-44 | the ledger holds exactly positions 1..current-1; the run succeeds iff every step did; each stored step ran without error on the deck cards it found, stored what its handler returned and left the cards `HeldAfter` gives, starting from the deck held before the run; a stopped run returns the error `StepError` gives for the step at `currentSequence`, and the ledger keeps the steps before it; if the run replaced the deck held before it, that deck still holds the cards `history` gives for the start_with step that replaced it |

## Left out

- `_get_percentage` and `run_probability_test` (cards/models.py:175-215) are not modelled. They call a caller-supplied function many times and compute a floating-point percentage, so they are statistics over executions rather than deck logic.
- The distribution of `random` is not modelled. Draws are an arbitrary list of naturals, and `Shuffled` uses the order in which CPython's `random.shuffle` asks for indices (from the last position down), but not how `_randbelow` produces them.
- `Card.__repr__` is not modelled separately; it returns `str(card)`.
- Joker cards are not modelled as cards of either deck. Only the `JOKER_VALUE`/`JOKER_SUIT` sentinels are, together with the fact that they are not table keys. The `colour` and symbol lookups on them fail, which is modelled as `UnknownSuit` in the comparisons and as `UnknownKey` when a refused insert prints the card.
- The imports at cards/language.py:3-4 name `UnsupportedAction`, `UnsupportedCommand`, `EmptyDeck` and `StandardDeckWithJokers`, none of which cards/exceptions.py or cards/models.py defines. As written, importing the module fails. The model treats the two exceptions as `Error` cases. It takes the two deck kinds as the constructor parameters `jokerVariant` and `emptyVariant`, because their composition is not defined anywhere. `ActionStartWith` and `HeldAfter` give those decks the cards of `FreshCards`, assuming both classes inherit `StandardDeck.reset`, so the model's deck "with jokers" holds no joker.
- `Language.Meta` holds only the eight keyword arguments the handlers know. Any other key in a step's `meta` would also raise a TypeError, but such a step cannot be expressed. An explicit `None` for `count` or `matches_required` (a TypeError when compared) is not distinguished from an absent key. Because `**meta` passes every key as a keyword argument, an explicit `None` is the same as an absent key only for a keyword the handler takes (`from_sequence` and the criterion lists of `compare_picked`, and `specific_cards` of `pick`, which `SpecificOf` reads as `specific_cards or []`). For any other keyword it is a TypeError at cards/language.py:32, for example `from_sequence: None` in a pick step or `colours: None` in a start_with step. The model cannot express this, and `Accepts` lets such a step run.
- A step without an `action` key (a KeyError) cannot be expressed.
- Card attributes are `Constants.Key` (an int or a string), and counts are unbounded integers. Other Python types in a step are not modelled.
- `Language.Language.Execute`: its ledger entries for `start_with` steps state the deck's kind but not its cards, because the ledger stores the deck by reference and later steps change that same deck in place. The cards the held deck goes through are stated by the ghost `history` instead.
- The class-level defaults of `Language` (`deck`, a shared `sequence_results` dictionary, `current_sequence = None`) are modelled as instance fields set by the constructor, with `currentSequence` starting at 0 instead of None. `execute` rebinds both before use.
- The playground scripts, the frontend and the tests are not part of this model.

## Findings

| source | as written | input that shows it | evidently intended | confidence | as-written member | corrected member |
|---|---|---|---|---|---|---|
| cards/language.py:85-89 | `card not in cards` and `cards.remove(card)` compare Card objects by identity, because Card defines no equality; the criterion cards come from the step, never from the deck, so a card checked against the list never matches | start_with standard_deck, pick specific_cards [ace of hearts], then compare_picked all_match with cards=[Card(1, "hearts")]: the answer is False | compare by suit and value, as `is_the_same_card` does in the any_match branch (cards/language.py:65-68) | high; not executed | `Language.AllMatchAsWritten`, shown by `Language.IdentityRejectsEqualCards` | `Language.AllMatchFrom`, proved by `Language.AllMatchCards` |
| cards/language.py:104-106 | `card != cards[idx]` compares by identity, so order_match with a card list is False at the first picked card | the same picks, then compare_picked order_match with cards=[Card(1, "hearts")]: the answer is False | compare by suit and value | high; not executed | `Language.OrderMatchAsWritten`, shown by `Language.IdentityRejectsEqualCards` | `Language.OrderMatchFrom`, proved by `Language.OrderMatchCards` |

The interpreter (`ComparePicked` and the `AllMatch` and `OrderMatch` loops) uses the corrected
comparison.
