/**
 * The command dispatcher, as test/commandSpec.js fixes its behaviour: the
 * first whitespace-delimited token of a message selects one handler from a
 * closed table, and a token outside the table selects none.
 */
module Dispatcher {

  import opened Wrappers
  import Strings

  /** The handlers of the table: `ping.pong`, `imgur`, `lang.change`, `youtube`, `addCensoredWord`, `displayCensorList`, `dice.rolled`. */
  datatype Handler = Pong | Imgur | ChangeLanguage | Youtube | AddCensoredWord | DisplayCensorList | Roll

  /** The command token of each handler. */
  function Token(h: Handler): string
  {
    match h
    case Pong => "!ping"
    case Imgur => "!imgur"
    case ChangeLanguage => "!lang"
    case Youtube => "!yt"
    case AddCensoredWord => "!1984"
    case DisplayCensorList => "!orwell"
    case Roll => "!roll"
  }

  /** `commandDispatcher(message)`: the one handler the message's command token selects, or `None`. */
  function Dispatch(content: string): (h: Option<Handler>)
    ensures h.Some? ==> Strings.FirstToken(content) == Token(h.value)
    ensures h.None? ==> forall g: Handler :: Strings.FirstToken(content) != Token(g)
  {
    match Strings.FirstToken(content)
    case "!ping" => Some(Pong)
    case "!imgur" => Some(Imgur)
    case "!lang" => Some(ChangeLanguage)
    case "!yt" => Some(Youtube)
    case "!1984" => Some(AddCensoredWord)
    case "!orwell" => Some(DisplayCensorList)
    case "!roll" => Some(Roll)
    case _ => None
  }

  /**
   * A message whose first word is a handler's token, alone or followed by
   * whitespace and arguments, is dispatched to that handler and to no other;
   * so the seven tokens select seven different handlers.
   */
  lemma DispatchByToken(h: Handler, rest: string)
    requires rest == [] || rest[0] in Strings.Whitespace
    ensures Dispatch(Token(h) + rest) == Some(h)
  {
    Strings.VisibleNotWhitespace(Token(h));
    Strings.FirstTokenOfCommand(Token(h), rest);
  }

  /** Distinct handlers have distinct tokens: the table is a one-to-one lookup. */
  lemma TokensDistinct(g: Handler, h: Handler)
    requires g != h
    ensures Token(g) != Token(h)
  {
    DispatchByToken(g, "");
    DispatchByToken(h, "");
    assert Token(g) + "" == Token(g) && Token(h) + "" == Token(h);
  }
}
