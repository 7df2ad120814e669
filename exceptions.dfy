/**
 * The failures the card model can raise, as values.
 *
 * The first four cases are the exception classes of cards/exceptions.py; the next two are the
 * exceptions cards/language.py imports by name; the rest stand for the Python built-in errors that
 * the interpreter's code raises on malformed input (a missing attribute, an unexpected keyword
 * argument, a missing dictionary key, an index past the end of a list, an unbound local).
 */
module Exceptions {

  datatype Error =
    | DeckFull            // DeckFullException: non-forced insert into a full or over-filled deck
    | NotEnoughCards      // NotEnoughCardsException: more random cards requested than remain
    | IncorrectDeck       // IncorrectDeckException: non-forced insert of a card already at its cap
    | CardIsNotInTheDeck  // CardIsNotInTheDeck: a specific card was requested that is absent
    | UnsupportedAction   // a step names an action outside the action table
    | UnsupportedCommand  // a step names a command not listed under its action
    | MissingHandler      // AttributeError: the action has no `action_<name>` handler
    | UnexpectedArgument  // TypeError: the step's meta holds a keyword the handler does not take
    | NoDeck              // AttributeError: a pick runs before any deck was started
    | UnboundPick         // UnboundLocalError: `pick` without a command never binds its result
    | MissingResult       // KeyError: the ledger has no entry at the referenced index
    | NotIterable         // TypeError: the referenced ledger entry is not a list of cards
    | UnknownSuit         // KeyError: colour lookup of a suit that is not in the suit table
    | UnknownKey          // KeyError: printing a card whose value or suit is not in its table
    | IndexOutOfRange     // IndexError: order_match ran past the end of its criterion list

  datatype Option<+T> = None | Some(value: T)

  datatype Result<+T> = Ok(value: T) | Err(error: Error)
}
