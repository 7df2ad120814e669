/**
 * The lookup tables of cards/constants.py: the thirteen card values with their symbols, the four
 * suits with their colour and symbol, and the joker sentinels.
 *
 * A Python dictionary both maps keys and remembers their insertion order; each table is modelled
 * as a `map` together with the sequence of its keys in that order, which is the order
 * `dict.keys()` yields and therefore the order in which decks are built.
 */
module Constants {

  import opened Seqs

  /** A dictionary key or card attribute: Python stores card values as ints and joker sentinels as strings. */
  datatype Key = Int(i: int) | Str(s: string)

  const COLOUR_RED: string := "red"
  const COLOUR_BLACK: string := "black"

  const SUIT_HEARTS: Key := Str("hearts")
  const SUIT_SPADES: Key := Str("spades")
  const SUIT_DIAMONDS: Key := Str("diamonds")
  const SUIT_CLUBS: Key := Str("clubs")

  const JOKER_VALUE: Key := Str("*")
  const JOKER_SUIT: Key := Str("*")

  /** CARD_VALUES_CONF: value -> symbol. */
  const CARD_VALUES_CONF: map<Key, string> := map[
    Int(1) := "A", Int(2) := "2", Int(3) := "3", Int(4) := "4", Int(5) := "5",
    Int(6) := "6", Int(7) := "7", Int(8) := "8", Int(9) := "9", Int(10) := "10",
    Int(11) := "J", Int(12) := "Q", Int(13) := "K"]

  /** The keys of CARD_VALUES_CONF in insertion order. */
  const VALUE_KEYS: seq<Key> := [
    Int(1), Int(2), Int(3), Int(4), Int(5), Int(6), Int(7),
    Int(8), Int(9), Int(10), Int(11), Int(12), Int(13)]

  datatype SuitConf = SuitConf(colour: string, symbol: string)

  /** CARD_SUITS_CONF: suit -> colour and symbol. */
  const CARD_SUITS_CONF: map<Key, SuitConf> := map[
    SUIT_SPADES := SuitConf(COLOUR_BLACK, "♠"),
    SUIT_HEARTS := SuitConf(COLOUR_RED, "♥"),
    SUIT_CLUBS := SuitConf(COLOUR_BLACK, "♣"),
    SUIT_DIAMONDS := SuitConf(COLOUR_RED, "♦")]

  /** The keys of CARD_SUITS_CONF in insertion order. */
  const SUIT_KEYS: seq<Key> := [SUIT_SPADES, SUIT_HEARTS, SUIT_CLUBS, SUIT_DIAMONDS]

  predicate IsValueKey(v: Key) { v in CARD_VALUES_CONF }

  predicate IsSuitKey(s: Key) { s in CARD_SUITS_CONF }

  /** The key sequences list each table's keys exactly once, values ascending from 1 to 13. */
  lemma KeyOrders()
    ensures forall v :: v in VALUE_KEYS <==> IsValueKey(v)
    ensures forall s :: s in SUIT_KEYS <==> IsSuitKey(s)
    ensures |VALUE_KEYS| == 13 && |SUIT_KEYS| == 4
    ensures forall k :: 0 <= k < 13 ==> VALUE_KEYS[k] == Int(k + 1)
    ensures NoDuplicates(VALUE_KEYS) && NoDuplicates(SUIT_KEYS)
  {
    NoDuplicatesPairwise(VALUE_KEYS);
    NoDuplicatesPairwise(SUIT_KEYS);
  }

  /** Hearts and diamonds are red, spades and clubs black, and the joker suit is in no table. */
  lemma SuitColours()
    ensures forall s :: IsSuitKey(s) ==>
      (CARD_SUITS_CONF[s].colour == COLOUR_RED <==> s == SUIT_HEARTS || s == SUIT_DIAMONDS)
    ensures forall s :: IsSuitKey(s) ==>
      (CARD_SUITS_CONF[s].colour == COLOUR_BLACK <==> s == SUIT_SPADES || s == SUIT_CLUBS)
    ensures !IsSuitKey(JOKER_SUIT) && !IsValueKey(JOKER_VALUE)
  {
  }

  /** Every suit symbol is one character, and no two suits or two values share a symbol. */
  lemma SymbolsDistinct()
    ensures forall s :: IsSuitKey(s) ==> |CARD_SUITS_CONF[s].symbol| == 1
    ensures forall s, t :: IsSuitKey(s) && IsSuitKey(t) && s != t ==>
      CARD_SUITS_CONF[s].symbol != CARD_SUITS_CONF[t].symbol
    ensures forall v, w :: IsValueKey(v) && IsValueKey(w) && v != w ==>
      CARD_VALUES_CONF[v] != CARD_VALUES_CONF[w]
  {
  }
}
