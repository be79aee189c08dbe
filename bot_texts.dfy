/**
 * dict/botTexts.js: the menu commands the bot registers, and the callback payloads its
 * inline buttons carry.
 */
module BotTexts {
  import opened Strings
  import SeleniumTexts

  /** BOT_COMMANDS. */
  const Start: string := "/start"
  const Link: string := "/link"
  const About: string := "/about"
  const FavoritesCommand: string := "/favorites"
  const LangCommand: string := "/lang"
  const BotCommands: seq<string> := [Start, Link, About, FavoritesCommand, LangCommand]

  /** BOT_QUERIES, the fixed action payloads. */
  const AddFavorites: string := "_add_favorites"
  const DeleteFavorites: string := "_delete_favorites"
  const Go: string := "_go"
  const Cancel: string := "_cancel"
  const LangEn: string := "_en"
  const LangNl: string := "_nl"
  const LangUk: string := "_uk"
  const ZwolleQuery: string := "_zwolle"
  const ApeldoornQuery: string := "_apeldoorn"
  const GuessCorrect: string := "_guess_correct"
  const GuessIncorrect: string := "_guess_incorrect"
  const ActionQueries: seq<string> := [
    AddFavorites, DeleteFavorites, Go, Cancel, LangEn, LangNl, LangUk,
    ZwolleQuery, ApeldoornQuery, GuessCorrect, GuessIncorrect
  ]

  /** BOT_QUERIES.FAVORITE_STOP and BOT_QUERIES.SELECT_FAVORITE: sample dynamic payloads. */
  const FavoriteStopSample: string := "#stop#"
  const SelectFavoriteSample: string := "##stop##"

  /** The five commands are distinct and each starts with `/`. */
  lemma CommandsDistinct()
    ensures |BotCommands| == 5
    ensures forall i, j :: 0 <= i < j < |BotCommands| ==> BotCommands[i] != BotCommands[j]
    ensures forall i :: 0 <= i < |BotCommands| ==> |BotCommands[i]| > 1 && BotCommands[i][0] == '/'
  {
  }

  /** The eleven action payloads are distinct and each starts with `_`. */
  lemma ActionQueriesDistinct()
    ensures |ActionQueries| == 11
    ensures forall i, j :: 0 <= i < j < |ActionQueries| ==> ActionQueries[i] != ActionQueries[j]
    ensures forall i :: 0 <= i < |ActionQueries| ==> |ActionQueries[i]| > 1 && ActionQueries[i][0] == '_'
  {
  }

  /** Dropping the first `_` of a language payload gives the language code it selects. */
  lemma LanguageCodes()
    ensures ReplaceFirst(LangEn, '_', "") == "en"
    ensures ReplaceFirst(LangNl, '_', "") == "nl"
    ensures ReplaceFirst(LangUk, '_', "") == "uk"
  {
    assert IndexOf(LangEn, '_') == 0 && IndexOf(LangNl, '_') == 0 && IndexOf(LangUk, '_') == 0;
  }

  /** Dropping the first `_` of a direction payload gives exactly the DIRECTIONS values. */
  lemma DirectionCodes()
    ensures ReplaceFirst(ZwolleQuery, '_', "") == SeleniumTexts.Zwolle
    ensures ReplaceFirst(ApeldoornQuery, '_', "") == SeleniumTexts.Apeldoorn
    ensures [ReplaceFirst(ZwolleQuery, '_', ""), ReplaceFirst(ApeldoornQuery, '_', "")] == SeleniumTexts.Directions
  {
    assert IndexOf(ZwolleQuery, '_') == 0 && IndexOf(ApeldoornQuery, '_') == 0;
  }
}
