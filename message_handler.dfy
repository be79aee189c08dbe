/**
 * func/bot_handlers/MessageHandler.js: the reply to a typed message. Menu commands get none,
 * `Done` gets the closing greeting, and any other text is looked up in the gazetteer: unknown,
 * an exact stop, or a suggestion the user confirms with an inline button.
 */
module MessageHandler {
  import opened Wrappers
  import opened Strings
  import SeleniumTexts
  import BotTexts
  import FindStop
  import Favorites
  import QueryHandler

  /** A message sent back: its text and its inline keyboard (`[]` for none). */
  datatype Reply = NoReply | Reply(text: string, keyboard: seq<seq<Favorites.Button>>)

  /** The greeting for `Done`; `first_name` defaults to `buddy`. */
  function DoneText(firstName: Option<string>): string {
    "Great! I hope I was helpful, " + firstName.GetOr("buddy") + "!"
    + " If you need to search for another bus stop, just hit New Search button."
  }

  const NewSearchKeyboard: seq<seq<Favorites.Button>> := [[Favorites.Button("New Search \U{1F50D}", BotTexts.Go)]]

  /** The text as a template literal prints it: a missing text prints as `undefined`. */
  function Shown(text: Option<string>): string {
    match text
    case None => "undefined"
    case Some(t) => t
  }

  function UnknownText(text: Option<string>): string {
    "You said: " + Shown(text) + ". I dont know such a command"
  }

  const ExactText: string := "\U{1F44C}. Start searching for the bus from your stop"

  /** The question for a suggested stop, which carries the stop between two `*`. */
  function SuggestionText(stop: string): string {
    "Not sure. Did you mean:  *" + stop + "*?"
  }

  const GuessKeyboard: seq<seq<Favorites.Button>> :=
    [[Favorites.Button("\U{2705} Yes!", BotTexts.GuessCorrect), Favorites.Button("\U{274C} Nope", BotTexts.GuessIncorrect)]]

  /** The reply `handleRest` chooses for the text and the answer `findStop` gave. */
  function ReplyTo(text: Option<string>, r: FindStop.Response): (reply: Reply)
    ensures reply.Reply?
    ensures reply.keyboard != [] <==> r.Found? && !r.isExact
  {
    match r
    case NotFound => Reply(UnknownText(text), [])
    case Found(isExact, stop) =>
      if isExact then Reply(ExactText, []) else Reply(SuggestionText(stop), GuessKeyboard)
  }

  /** `handleRest`: the reply chosen from what `findStop` makes of the text. */
  function RestReply(text: Option<string>): Reply
    requires FindStop.PatternSafe(SeleniumTexts.BusStops, text)
  {
    ReplyTo(text, FindStop.Resolve(SeleniumTexts.BusStops, text))
  }

  /** The three replies differ: the acknowledgement is sent exactly for an exact answer, the keyboard exactly for a suggestion. */
  lemma ReplyToDistinguishes(text: Option<string>, r: FindStop.Response)
    ensures ReplyTo(text, r) == Reply(ExactText, []) <==> r.Found? && r.isExact
    ensures ReplyTo(text, r).keyboard == GuessKeyboard <==> r.Found? && !r.isExact
    ensures r.Found? && !r.isExact ==> ReplyTo(text, r).text == SuggestionText(r.stop)
  {
    assert ExactText[1] == '.';
    assert UnknownText(text)[0] == 'Y' && UnknownText(text)[1] == 'o';
    if r.Found? {
      assert SuggestionText(r.stop)[0] == 'N' && SuggestionText(r.stop)[1] == 'o';
    }
  }

  /** The text is one of the menu commands. */
  predicate IsCommand(text: Option<string>) {
    text.Some? && text.value in BotTexts.BotCommands
  }

  /** The texts `findStop` is asked about: neither a command nor `Done`. */
  predicate Searched(text: Option<string>) {
    !IsCommand(text) && text != Some("Done")
  }

  /** The `message` listener: commands are skipped, `/^Done$/` greets, the rest is looked up. */
  function HandleMessage(text: Option<string>, firstName: Option<string>): (r: Reply)
    requires Searched(text) ==> FindStop.PatternSafe(SeleniumTexts.BusStops, text)
    ensures r == NoReply <==> IsCommand(text)
  {
    if IsCommand(text) then NoReply
    else if text == Some("Done") then Reply(DoneText(firstName), NewSearchKeyboard)
    else RestReply(text)
  }

  /** Commands get no reply; `Done`, which is no command, gets the greeting with a New Search button that starts a search. */
  lemma CommandsAndDone(text: Option<string>, firstName: Option<string>)
    requires Searched(text) ==> FindStop.PatternSafe(SeleniumTexts.BusStops, text)
    ensures IsCommand(text) <==> HandleMessage(text, firstName) == NoReply
    ensures text == Some("Done") ==>
      HandleMessage(text, firstName) == Reply(DoneText(firstName), NewSearchKeyboard)
    ensures QueryHandler.RouteOf(NewSearchKeyboard[0][0].callbackData) == QueryHandler.GoRoute
  {
    BotTexts.CommandsDistinct();
    if text == Some("Done") {
      assert "Done"[0] != '/';
    }
    QueryHandler.ActionRoutes();
  }

  /** A missing or short text gets the unknown-command line. */
  lemma ShortTextUnknown(text: Option<string>)
    requires text.None? || |text.value| < 4
    ensures RestReply(text) == Reply(UnknownText(text), [])
  {
  }

  /** The acknowledgement comes exactly for a gazetteer stop typed as written. */
  lemma ExactReplyExactly(text: Option<string>)
    requires FindStop.PatternSafe(SeleniumTexts.BusStops, text)
    ensures RestReply(text) == Reply(ExactText, []) <==> text.Some? && text.value in SeleniumTexts.BusStops
  {
    FindStop.ResolveAnswers(SeleniumTexts.BusStops, text);
    if text.Some? && text.value in SeleniumTexts.BusStops {
      FindStop.BusStopIsExact(text.value);
    }
    ReplyToDistinguishes(text, FindStop.Resolve(SeleniumTexts.BusStops, text));
  }

  /** A reply with the Yes/No keyboard is a suggestion of a gazetteer stop that the text is not. */
  lemma SuggestionReply(text: Option<string>)
    requires FindStop.PatternSafe(SeleniumTexts.BusStops, text)
    requires RestReply(text).keyboard == GuessKeyboard
    ensures var r := FindStop.Resolve(SeleniumTexts.BusStops, text);
      && r.Found? && !r.isExact && r.stop in SeleniumTexts.BusStops && r.stop != text.value
      && RestReply(text).text == SuggestionText(r.stop)
  {
    FindStop.ResolveAnswers(SeleniumTexts.BusStops, text);
    ReplyToDistinguishes(text, FindStop.Resolve(SeleniumTexts.BusStops, text));
  }

  /** Reading the guess back from the suggestion gives the stop, trimmed. */
  lemma SuggestionReadsBack(stop: string)
    requires '*' !in stop && QueryHandler.NoLineTerminator(stop)
    ensures QueryHandler.ExtractGuess(SuggestionText(stop)) == Some(Trim(stop))
  {
    var prefix := "Not sure. Did you mean:  ";
    assert '*' !in prefix;
    assert SuggestionText(stop) == prefix + "*" + stop + "*" + "?";
    QueryHandler.ExtractBetweenStars(prefix, stop, "?");
  }

  /** The Yes and No buttons reach the guess handler; No gets the guess-incorrect reply whatever the message. */
  lemma GuessKeyboardRoutes(text: string, context: QueryHandler.SearchContext)
    ensures QueryHandler.RouteOf(GuessKeyboard[0][0].callbackData) == QueryHandler.GuessRoute
    ensures QueryHandler.RouteOf(GuessKeyboard[0][1].callbackData) == QueryHandler.GuessRoute
    ensures GuessKeyboard[0][0].callbackData == BotTexts.GuessCorrect
    ensures QueryHandler.HandleGuess(GuessKeyboard[0][1].callbackData, text, context) == QueryHandler.GuessRejected
  {
    QueryHandler.ActionRoutes();
  }

  /** Confirming the suggestion of a plain name with the Yes button searches from exactly that name. */
  lemma ConfirmedSuggestionSearches(stop: string, context: QueryHandler.SearchContext)
    requires SeleniumTexts.PlainName(stop) && SeleniumTexts.LetterEnds(stop)
    ensures QueryHandler.HandleGuess(BotTexts.GuessCorrect, SuggestionText(stop), context) == QueryHandler.SearchGuess(stop, context)
  {
    SeleniumTexts.PlainNameMarkFree(stop);
    TrimOfTrimmed(stop);
    SuggestionReadsBack(stop);
    QueryHandler.ConfirmedGuess(SuggestionText(stop), stop, context);
  }

  /** A suggestion the bot makes and the user confirms leads to a search from the suggested stop. */
  lemma SuggestionRoundTrip(text: Option<string>, context: QueryHandler.SearchContext)
    requires FindStop.PatternSafe(SeleniumTexts.BusStops, text)
    requires RestReply(text).keyboard == GuessKeyboard
    ensures var r := FindStop.Resolve(SeleniumTexts.BusStops, text);
      r.Found? && QueryHandler.HandleGuess(BotTexts.GuessCorrect, RestReply(text).text, context) == QueryHandler.SearchGuess(r.stop, context)
  {
    SuggestionReply(text);
    var stop := FindStop.Resolve(SeleniumTexts.BusStops, text).stop;
    SeleniumTexts.BusStopIsName(stop);
    ConfirmedSuggestionSearches(stop, context);
  }
}
