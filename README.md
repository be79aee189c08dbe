# The #304 bus bot, modelled in Dafny

This project models the decision logic of a Telegram bot for bus line 304 (Apeldoorn – Zwolle). It covers these parts:

- **Gazetteer and constants**: the 42 stops of the line, the two directions, the weekday numbering, the five menu commands and the inline-button payloads (modules `SeleniumTexts`, `BotTexts`).
- **Stop resolver** (`FindStop`): free text becomes a stop in three steps.
  1. Case-sensitive membership.
  2. The first entry that contains the text, ignoring case (the regular-expression step).
  3. The nearest entry at lower-case Levenshtein distance 2 or less.

  The Levenshtein table is filled in place in a two-dimensional array. It is proved equal to the recursive edit distance. The fuzzy `forEach` loop is a method proved equal to its specification.
- **Keyboards** (`Favorites`):
  - `arraySlicer` is a loop proved equal to a chunking function. Its rows flatten back to the list and are sized as the documentation says.
  - The all-stops and favourites keyboards encode stops as `#s#` and `##s##`.
- **Stop names on screen** (`NormalizeBusStop`): the first `/` becomes ` - `.
- **Timetable reading** (`SeleniumScript`):
  - The day and direction options, and the zero-padded hour labels.
  - The collection loop over the rows of the stop.
  - The two cell filters: current-hour cells from the current minute on, and next-hour cells in the time format.

  The browser session is a function from what the script selects on the page to the rows it finds there.
- **Reply composition** (`GetSearchResults`): the night blackout, then the reply built from the two departure lists.
- **Button presses** (`QueryHandler`):
  - The `switch` that routes a payload, including the `String(null)` cases.
  - Decoding of the `+s+`, `#!s!#` and `##s##` payloads.
  - The favourites list updates: duplicate-free append, and filtered removal.
  - The language and direction settings.
  - The locale of the unknown-query reply.
  - Reading a confirmed guess back from between `*…*`.
- **Typed messages** (`MessageHandler`): commands are ignored, `Done` gets the greeting, and any other text gets the resolver's answer. That answer is unknown, exact, or a suggestion with Yes/No buttons. A confirmed suggestion round-trips to a search from the suggested stop.

Messages sent and data stored are effects. The model computes what would be sent and stored: an `Effect` of `handleFavorites`, a `Reply` of the message listener, a `GuessReply` of `handleGuess`, and a `QueryOutcome` of `handleQueries`.

The stored user record may be missing. `handleQueries` then throws in every handler that destructures it, which is all of them but the language handler and the default branch (`QueryOutcome.Throws`). `Throws` stands for that failure only. The other failure, a confirmed guess on a message without a `*…*` pair, where `[0]` of a `null` match raises a `TypeError`, is `GuessHandled(NoGuessFound)`. A search started by a button carries a `SearchContext`: the `date` of the message that holds the keyboard, which is not the moment of the press, and the stored direction, `None` when none is stored.

Where the project's documentation and its code differ, the model follows the code:

- The next-hour label is `hours + 1` with no wrap-around, so hour 23 searches for `24:`.
- The fuzzy step compares the whole lower-cased text with each whole lower-cased entry. A short fragment such as `Nachtegalweg` is therefore far from `Wapenveld, Nachtegaalweg`.
- The locale of the unknown-query reply is the sender's client language even when a language is stored.

## Model

| member | source | states |
|---|---|---|
| Strings.Lower | utils/findStop.js:57 | `toLowerCase` over ASCII: the same length, each character lowered on its own |
| Strings.TrimOfTrimmed | func/bot_handlers/QueryHandler.js:272 | `trim` leaves a text that neither starts nor ends with white space as it is |
| Strings.DigitsValueOfNatToString | utils/getSearchResults.js:24 | printing a number in decimal and reading the digits back gives the number |
| Strings.DigitPrefix | utils/seleniumScript.js:102 | the part `parseInt` reads: the longest prefix of digits, stopped by the first non-digit |
| Strings.IndexOf | utils/seleniumScript.js:100 | the first colon, where `split(':')` cuts: the character is there and does not occur before; -1 exactly when it does not occur |
| Strings.IndexOfFirst | utils/seleniumScript.js:100 | a colon with none before it is the one `split` cuts at |
| Strings.RemoveAll | func/bot_handlers/QueryHandler.js:109 | a global `replace` by the empty string keeps exactly the other characters and leaves none of the removed one |
| Strings.RemoveAllAbsent | func/bot_handlers/QueryHandler.js:157 | removing a character the text does not hold changes nothing |
| Strings.RemoveAllAppend | func/bot_handlers/QueryHandler.js:109 | removal works piece by piece over a concatenation |
| SeleniumTexts.BusStopsCount | dict/seleniumTexts.js:12-55 | the gazetteer has 42 entries |
| SeleniumTexts.DirectionsDistinctLowerCase | dict/seleniumTexts.js:1 | the directions are `zwolle` and `apeldoorn`: distinct and already lower-case |
| SeleniumTexts.WeekdaysNumbering | dict/seleniumTexts.js:2-10 | Sunday to Saturday are numbered 0 to 6 in order |
| SeleniumTexts.DistinctByKeys | dict/seleniumTexts.js:12-55 | a list whose entries are told apart by length and two characters has no repeats |
| SeleniumTexts.BusStopsShape | dict/seleniumTexts.js:13-54 | every entry has at least four characters and starts and ends with a letter |
| SeleniumTexts.BusStopsDistinct | dict/seleniumTexts.js:12-55 | the 42 entries are pairwise distinct |
| SeleniumTexts.SlashedStopsSlash | dict/seleniumTexts.js:16-52 | entries 3, 28, 32 and 39 hold a `/`, and at which position |
| SeleniumTexts.PlainNameMarkFree | dict/seleniumTexts.js:13-54 | a name of letters, spaces and `,/-.` holds no `*`, `#`, `+`, `!` or `\|` and no line terminator |
| SeleniumTexts.BusStopsPlain | dict/seleniumTexts.js:13-54 | every entry is written with letters, spaces and `,/-.` only |
| SeleniumTexts.BusStopsNames | dict/seleniumTexts.js:13-54 | every entry is such a plain name, starting and ending with a letter |
| SeleniumTexts.BusStopIsName | dict/seleniumTexts.js:13-54 | any member of the gazetteer is such a name |
| BotTexts.CommandsDistinct | dict/botTexts.js:1-7 | the five commands are distinct and each starts with `/` |
| BotTexts.ActionQueriesDistinct | dict/botTexts.js:9-20 | the eleven action payloads are distinct and each starts with `_` |
| BotTexts.LanguageCodes | dict/botTexts.js:14-16 | dropping the first `_` of the language payloads gives `en`, `nl`, `uk` |
| BotTexts.DirectionCodes | dict/botTexts.js:17-18 | dropping the first `_` of the direction payloads gives exactly the two directions |
| Favorites.ArraySlicer | utils/favorites.js:12-20 | the loop that pushes `slice(i, i + k)` for `i = 0, k, 2k, …` builds exactly the chunk rows |
| Favorites.FlattenChunks | utils/favorites.js:10-20 | the rows, read one after another, give back the list |
| Favorites.ChunkCount | utils/favorites.js:15-17 | the number of rows is the length divided by `k`, rounded up |
| Favorites.ChunkSizes | utils/favorites.js:8-17 | every row holds 1 to `k` elements, and every row but the last exactly `k` |
| Favorites.ChunksFull | utils/favorites.js:15-17 | when `k` divides the length, every row is full |
| Favorites.Buttons | utils/favorites.js:23 | one button per stop, in order, labelled with the stop, with the stop between two marks as payload |
| Favorites.ButtonRows | utils/favorites.js:22-36 | a keyboard's rows read back as the buttons; each row holds 1 to `k` of them, and every row but the last exactly `k` |
| Favorites.StopsBtnListShape | utils/favorites.js:22-27 | a list of a multiple of three stops gives full rows of three `#s#` buttons, in order |
| Favorites.AllStopsBtnListShape | utils/favorites.js:22-27 | the gazetteer keyboard is 14 full rows of three `#s#` buttons, in gazetteer order |
| Favorites.FavoritesBtnListShape | utils/favorites.js:29-37 | no favourites give no rows; otherwise `##s##` buttons in order, in rows of three for three or more stops and of two below, where only the last row may be shorter |
| NormalizeBusStop.NormalizeBusStop | utils/normalizeBusStop.js:12 | the name as shown: a name without `/` is unchanged; a name with one grows by exactly two characters |
| NormalizeBusStop.NormalizeIdempotent | utils/normalizeBusStop.js:12 | with at most one `/`, the result has none, so normalizing twice is normalizing once |
| NormalizeBusStop.NormalizeAt | utils/normalizeBusStop.js:3-12 | the first `/` becomes ` - `, and what comes before and after it is kept |
| NormalizeBusStop.NormalizeExample | utils/normalizeBusStop.js:5-7 | the documented examples: `Zwolle/Apeldoorn` and `Zwolle` |
| FindStop.Min3 | utils/findStop.js:15-19 | `Math.min` of three: no larger than any of them and equal to one of them |
| FindStop.DiagonalShortcut | utils/findStop.js:12-19 | for equal characters the diagonal value equals the full three-way minimum |
| FindStop.EditDistance | utils/findStop.js:4-23 | the unit-cost edit distance (insert, delete, substitute) of the two texts, at least their length difference and at most the longer length |
| FindStop.EditDistanceProperties | utils/findStop.js:4-23 | the edit distance is zero exactly on equal strings, symmetric, at least the length difference and at most the longer length |
| FindStop.CellRecurrence | utils/findStop.js:10-19 | the recurrence the table cells follow, with the shortcut for equal characters |
| FindStop.Levenshtein | utils/findStop.js:4-23 | the table filled row by row from the base cells `i` and `j` ends in the recursive unit-cost edit distance |
| FindStop.FirstMatchFrom | utils/findStop.js:47-51 | `BUS_STOPS.find`: the first entry the text matches ignoring case; nothing exactly when no entry matches |
| FindStop.DistancesAt | utils/findStop.js:57 | the distance compared for each entry is the edit distance between the lower-cased text and entry |
| FindStop.NearestNone | utils/findStop.js:53-64 | the fuzzy step keeps nothing exactly when every entry is more than 2 away |
| FindStop.NearestIsFirstClosest | utils/findStop.js:56-62 | the fuzzy step keeps the first entry at the smallest distance, which is at most 2 |
| FindStop.NearestIsUnique | utils/findStop.js:56-62 | conversely, the first entry at the smallest distance, when that distance is at most 2, is the one kept |
| FindStop.FuzzySuggestion | utils/findStop.js:53-64 | the `forEach` loop with strict `<` and the bound 2 yields the specified suggestion |
| FindStop.FindStop | utils/findStop.js:40-66 | the three steps in order: short or missing text, exact membership, first match ignoring case, then the fuzzy suggestion |
| FindStop.Resolve | utils/findStop.js:40-66 | the answer of the three steps: a stop is found only for a text of four or more characters, and it is exact exactly when that text is an entry |
| FindStop.ResolveAnswers | utils/findStop.js:41-64 | a missing or short text finds nothing; a stop found is an entry, flagged exact exactly when it is the text itself |
| FindStop.FoundStopNotEmpty | utils/findStop.js:47-64 | a stop found is never the empty text that `findStop` would answer with `null`, whatever the entries |
| FindStop.ResolvePatternStep | utils/findStop.js:47-51 | a text that is no entry but matches one gets the first entry it matches, not exact |
| FindStop.ResolveFuzzyStep | utils/findStop.js:53-64 | a text that matches no entry gets the first nearest entry within distance 2, not exact |
| FindStop.NotFoundExactly | utils/findStop.js:41-64 | nothing is found exactly for a short text, or one that no step can place |
| FindStop.EveryLongEntryIsExact | utils/findStop.js:44-46 | every entry of at least four characters, typed as written, is an exact hit |
| FindStop.EveryBusStopIsExact | utils/findStop.js:44-46 | every gazetteer entry, typed as written, is an exact hit |
| FindStop.BusStopIsExact | utils/findStop.js:44-46 | any gazetteer member is an exact hit |
| SeleniumScript.DayLabel | utils/seleniumScript.js:36-61 | the day option: `zaterdag` exactly for 6, `zon- en feestdagen` exactly for 0, `maandag t/m vrijdag` for every other day |
| SeleniumScript.DirectionOption | utils/seleniumScript.js:40-42 | the direction option: `Return` exactly for `zwolle`, `Away` for anything else |
| SeleniumScript.HourLabel | utils/seleniumScript.js:76 | the hour label is digits only, reads back as the hour, and is two characters for any hour below 100 |
| SeleniumScript.NextHourLabel | utils/seleniumScript.js:77 | the next-hour label is digits only and reads back as the hour plus one |
| SeleniumScript.NextHourAfter23 | utils/seleniumScript.js:77 | the hour after 23 is labelled `24`: no wrap-around |
| SeleniumScript.Departing | utils/seleniumScript.js:95-107 | the kept cells are exactly the time cells leaving at the minute or later, no more than the input |
| SeleniumScript.DepartingAppend | utils/seleniumScript.js:95-107 | the filter works cell by cell, so order is preserved |
| SeleniumScript.DepartingOne | utils/seleniumScript.js:99-104 | unfolds the filter on a single cell: it is kept, as its own text, exactly when it departs in time; the filter over a list is stated by `Departing` |
| SeleniumScript.DepartingFromZero | utils/seleniumScript.js:109-117 | with minute 0 the filter keeps exactly the time cells, which is the next-hour filter |
| SeleniumScript.CellMinutesOfTime | utils/seleniumScript.js:99-102 | the minutes `parseInt` reads after the first colon are the two minute digits of the cell's time |
| SeleniumScript.PlainTime | utils/seleniumScript.js:99-102 | a bare `hh:mm` cell is a time cell at minute `mm` |
| SeleniumScript.RunSeleniumScript | utils/seleniumScript.js:11-124 | the script, with the row loop, returns the departures the specification gives for the page the site shows |
| SeleniumScript.HourCellsAppend | utils/seleniumScript.js:79-93 | cells are gathered row after row, in row order |
| SeleniumScript.NoRowsNoDepartures | utils/seleniumScript.js:70-71 | with no row for the stop, or a failure before the lists are assigned, both lists are empty |
| SeleniumScript.ScriptResult | utils/seleniumScript.js:66-124 | the lists returned for a page: a current-hour list only when rows were found and their cells read, a next-hour list only when the next-hour cells were read as well |
| SeleniumScript.ScriptResultContents | utils/seleniumScript.js:95-117 | exactly the current-hour time cells from the minute on; exactly the next-hour time cells; an empty next list when reading its cells fails |
| GetSearchResults.GetSearchResults | utils/getSearchResults.js:3-34 | the reply is the blackout text for hours 1 to 4, otherwise the composition of the scraper's lists |
| GetSearchResults.BlackoutIgnoresSite | utils/getSearchResults.js:11-18 | in the blackout the reply is the fixed text whatever the site shows |
| GetSearchResults.Compose | utils/getSearchResults.js:22-31 | the "No buses" line exactly when both lists are empty; otherwise a reply that starts with the header |
| GetSearchResults.ComposeReadsBack | utils/getSearchResults.js:22-31 | a reply with bar-free departures is the header, then the "Departing soon" line exactly when there are departures this hour, then the "Departing later" line exactly when there are departures next hour; the text between each line's brackets splits on ` \| ` back into that hour's departures, in order |
| GetSearchResults.ComposeNoRefusal | utils/getSearchResults.js:11-31 | a composed reply is never the night refusal |
| GetSearchResults.SearchReply | utils/getSearchResults.js:3-34 | the whole answer is the night refusal exactly for hours 1 to 4 |
| GetSearchResults.ClockReadsBack | utils/getSearchResults.js:24 | the clock is unpadded hours, a colon and unpadded minutes, and both read back |
| GetSearchResults.SplitJoin | utils/getSearchResults.js:26-29 | splitting joined items on the separator gives the items back, in order |
| GetSearchResults.ListLineReadsBack | utils/getSearchResults.js:26-29 | departures without a bar, joined by ` \| `, split back into the same departures |
| QueryHandler.RouteOf | func/bot_handlers/QueryHandler.js:27-67 | the `switch`: the language, direction, go, cancel and guess handlers are reached exactly by their own payloads, and a payload starting with `_` reaches `handleFavorites` exactly when it is one of the two list payloads |
| QueryHandler.FavoritesRouteExactly | func/bot_handlers/QueryHandler.js:27-34 | a payload goes to `handleFavorites` exactly when it is one of the two list payloads, matches one of the three patterns, or is the text `null` |
| QueryHandler.PayloadKindsDisjoint | func/bot_handlers/QueryHandler.js:108-156 | no payload matches two of the three patterns |
| QueryHandler.UnderscoreIsNoPattern | func/bot_handlers/QueryHandler.js:27-34 | a payload starting with `_` matches no pattern and is not `null` |
| QueryHandler.SettingRoutes | func/bot_handlers/QueryHandler.js:35-43 | the three language payloads reach the language handler, the two direction payloads the direction handler |
| QueryHandler.ActionRoutes | func/bot_handlers/QueryHandler.js:27-53 | the list, go, cancel and guess payloads reach their own handlers |
| QueryHandler.SaveRoundTrip | func/bot_handlers/QueryHandler.js:108-109 | a non-empty stop without `+` encodes to a save payload that decodes back to it |
| QueryHandler.SaveDecodeEncode | func/bot_handlers/QueryHandler.js:108-109 | every save payload is the encoding of its non-empty, `+`-free decoding |
| QueryHandler.DeleteRoundTrip | func/bot_handlers/QueryHandler.js:139-140 | a non-empty one-line stop encodes to a delete payload that decodes back to it |
| QueryHandler.DeleteDecodeEncode | func/bot_handlers/QueryHandler.js:139-140 | every delete payload is the `#!s!#` encoding of its decoding |
| QueryHandler.SearchRoundTrip | func/bot_handlers/QueryHandler.js:156-157 | `##s##` is a search payload, and it decodes back to `s` exactly when `s` holds no `#` |
| QueryHandler.Dedup | func/bot_handlers/QueryHandler.js:112 | `Array.from(new Set(…))` keeps each element once and drops none |
| QueryHandler.DedupOrder | func/bot_handlers/QueryHandler.js:112 | the kept elements come in the order of their first occurrences |
| QueryHandler.DedupOfDistinct | func/bot_handlers/QueryHandler.js:112 | a list without repeats is left as it is |
| QueryHandler.SaveFavoriteEffect | func/bot_handlers/QueryHandler.js:111-113 | the new list has no repeats and holds the old stops and `s`; a list without repeats gains `s` at the end exactly when `s` was absent, else stays |
| QueryHandler.SaveCollapsesRepeats | func/bot_handlers/QueryHandler.js:112 | repeats already stored collapse on the next save |
| QueryHandler.DeleteFavorite | func/bot_handlers/QueryHandler.js:143 | the filter keeps exactly the stops other than `s` |
| QueryHandler.DeleteFavoriteAppend | func/bot_handlers/QueryHandler.js:143 | removal works piece by piece, so the remaining stops keep their order |
| QueryHandler.DeleteAbsent | func/bot_handlers/QueryHandler.js:143 | removing an absent stop changes nothing |
| QueryHandler.DeleteKeepsDistinct | func/bot_handlers/QueryHandler.js:143 | removal keeps a list without repeats without repeats |
| QueryHandler.DeleteAfterSave | func/bot_handlers/QueryHandler.js:108-144 | saving a new stop and deleting it gives the old list back |
| QueryHandler.SaveAfterDelete | func/bot_handlers/QueryHandler.js:108-144 | deleting a stop and saving it again moves it to the end |
| QueryHandler.HandleFavorites | func/bot_handlers/QueryHandler.js:82-173 | what `handleFavorites` sends, stores or searches: at most one of the five tests succeeds, and one does exactly for payloads routed there other than `null` |
| QueryHandler.SavePayloadSaves | func/bot_handlers/QueryHandler.js:108-118 | `+s+` stores the list with `s` saved and confirms `s` as normalized |
| QueryHandler.DeletePayloadDeletes | func/bot_handlers/QueryHandler.js:139-150 | `#!s!#` stores the list with `s` removed and confirms `s` as normalized |
| QueryHandler.SearchPayloadSearches | func/bot_handlers/QueryHandler.js:156-161 | `##s##` searches from `s` |
| QueryHandler.FavoritesButtonsSearch | func/bot_handlers/QueryHandler.js:156-157 | every button of the favourites keyboard searches from the stop it is labelled with |
| QueryHandler.DeleteListSearches | func/bot_handlers/QueryHandler.js:98-106 | the delete-list keyboard is the favourites keyboard, whose buttons search rather than delete |
| QueryHandler.AddListPayloadUnknown | func/bot_handlers/QueryHandler.js:27-65 | `#s#` for a name starting with a letter matches no case and gets the unknown-query reply |
| QueryHandler.StopsButtonsUnknown | utils/favorites.js:22-27 | every `#s#` button of such names reaches the unknown-query reply |
| QueryHandler.AddListButtonsUnknown | func/bot_handlers/QueryHandler.js:82-96 | every button of the keyboard the add-favourites payload sends reaches the unknown-query reply |
| QueryHandler.SamplePayloads | dict/botTexts.js:22-23 | the sample `#stop#` matches no handler; `##stop##` searches from `stop` |
| QueryHandler.SaveBtnListSaves | func/bot_handlers/QueryHandler.js:108-113 | every button of a `+s+` keyboard saves the stop it is labelled with |
| QueryHandler.GazetteerSaveList | func/bot_handlers/QueryHandler.js:82-113 | the all-stops keyboard with `+s+` payloads saves each gazetteer stop |
| QueryHandler.DeleteBtnListRemoves | func/bot_handlers/QueryHandler.js:139-144 | every button of a `#!s!#` keyboard removes the stop it is labelled with, and only that stop |
| QueryHandler.LangSetting | func/bot_handlers/QueryHandler.js:194 | a payload routed to the language handler stores `en`, `nl` or `uk` |
| QueryHandler.DirectionSetting | func/bot_handlers/QueryHandler.js:221 | a payload routed to the direction handler stores one of the two directions |
| QueryHandler.HandleDirection | func/bot_handlers/QueryHandler.js:197-222 | a keyboard is sent exactly when favourites are stored, and it holds every favourite as a `##s##` button, in order |
| QueryHandler.DirectionOffersFavorites | func/bot_handlers/QueryHandler.js:197-222 | the direction is stored, and a keyboard is sent exactly when there are favourites, each button searching from its stop |
| QueryHandler.UnknownQueryLocaleIgnoresStored | func/bot_handlers/QueryHandler.js:59-63 | as written, a stored language yields the client language, even an unsupported or missing one; with none stored an unsupported client gets `en` |
| QueryHandler.IntendedLocaleProperties | func/bot_handlers/QueryHandler.js:59-63 | the intended locale is the stored language, else a supported one, and agrees with the code when nothing is stored |
| QueryHandler.FirstGuessFrom | func/bot_handlers/QueryHandler.js:272 | the leftmost position where the lazy `*…*` pattern succeeds, or none when it succeeds nowhere |
| QueryHandler.ExtractBetweenStars | func/bot_handlers/QueryHandler.js:272 | after a prefix without `*`, a one-line stop between two `*` is read back, trimmed |
| QueryHandler.NoStarNoGuess | func/bot_handlers/QueryHandler.js:272 | without `*` no guess is read: the handler throws |
| QueryHandler.HandleGuess | func/bot_handlers/QueryHandler.js:258-290 | a search exactly for the confirmation payload on a message a guess can be read from, from that guess, with the context given; the `TypeError` (`NoGuessFound`) exactly for the confirmation payload on a message without a guess; the rejection exactly for the rejection payload |
| QueryHandler.ConfirmedGuess | func/bot_handlers/QueryHandler.js:270-285 | unfolds the confirmed case for a message whose guess is known; which guess a text holds is stated by `FirstGuessFrom` |
| QueryHandler.HandleQuery | func/bot_handlers/QueryHandler.js:24-68 | `handleQueries` over the stored record: the missing-record failure (`Throws`) happens exactly when no record is stored and the payload reaches neither the language handler nor the default branch; the `TypeError` of a confirmation on a message without a `*…*` guess is `GuessHandled(NoGuessFound)`, exactly when a record is stored |
| QueryHandler.FavoriteSearchContext | func/bot_handlers/QueryHandler.js:70-161 | a favourite's button searches from its stop with the date of the message that carries the keyboard and the stored direction, `None` when none is stored |
| QueryHandler.GuessSearchContext | func/bot_handlers/QueryHandler.js:258-285 | a confirmed guess searches from the guess with the date of the message and the stored direction |
| QueryHandler.NoStoredFavoritesDeleteList | func/bot_handlers/QueryHandler.js:79-106 | a record without favourites gets an empty delete list |
| QueryHandler.NoStoredFavoritesNoKeyboard | func/bot_handlers/QueryHandler.js:205-222 | a record without favourites chooses a direction without a keyboard |
| MessageHandler.ReplyTo | func/bot_handlers/MessageHandler.js:43-72 | `handleRest` always replies, with a keyboard exactly for a suggestion |
| MessageHandler.ReplyToDistinguishes | func/bot_handlers/MessageHandler.js:50-71 | the acknowledgement is sent exactly for an exact answer, the Yes/No keyboard exactly for a suggestion, with the suggestion text |
| MessageHandler.HandleMessage | func/bot_handlers/MessageHandler.js:14-24 | the `message` listener: no reply exactly for a menu command |
| MessageHandler.CommandsAndDone | func/bot_handlers/MessageHandler.js:14-41 | exactly the commands get no reply; `Done` gets the greeting and a New Search button that reaches the go handler |
| MessageHandler.ShortTextUnknown | func/bot_handlers/MessageHandler.js:48-52 | a missing or short text gets the unknown-command line |
| MessageHandler.ExactReplyExactly | func/bot_handlers/MessageHandler.js:54-61 | the acknowledgement comes exactly for a gazetteer stop typed as written |
| MessageHandler.SuggestionReply | func/bot_handlers/MessageHandler.js:54-71 | a Yes/No reply suggests a gazetteer stop other than the text, named in the reply text |
| MessageHandler.SuggestionReadsBack | func/bot_handlers/MessageHandler.js:58 | reading the guess back from the suggestion text gives the stop, trimmed |
| MessageHandler.GuessKeyboardRoutes | func/bot_handlers/MessageHandler.js:62-71 | both buttons reach the guess handler; Yes carries the confirmation, No is rejected whatever the message |
| MessageHandler.ConfirmedSuggestionSearches | func/bot_handlers/MessageHandler.js:58 | confirming the suggestion of a plain name searches from exactly that name |
| MessageHandler.SuggestionRoundTrip | func/bot_handlers/MessageHandler.js:43-71 | a suggestion the bot makes and the user confirms leads to a search from the suggested stop |

## Left out

- FindStop.FindStop: the regular-expression step is modelled as a case-insensitive literal search. It requires (`PatternSafe`) that a text of four or more characters that is not an entry holds no regular-expression metacharacter. Texts with metacharacters, and the exception an invalid pattern raises, are not modelled. `MessageHandler.HandleMessage` inherits this requirement.
- Favorites.ArraySlicer: it requires a slice size of at least 1. With 0 the source loop never ends on a non-empty list. The default size of 2 is not modelled, because every caller passes the size.
- FindStop.Resolve, MessageHandler.RestReply, MessageHandler.ExactReplyExactly, MessageHandler.SuggestionReply, MessageHandler.SuggestionRoundTrip: they carry the same `PatternSafe` requirement as FindStop.FindStop and inherit its literal-search model of the regular-expression step.
- FindStop.FindStop: `toLowerCase` is ASCII only. Unicode case folding and UTF-16 lengths are not modelled.
- SeleniumTexts.BusStopsShape: it does not state the `Town, Name` shape with exactly one `", "`.
- SeleniumTexts.SlashedStopsSlash: it states where the `/` of the four entries stands. It does not state that these are the only `/` in the gazetteer.
- QueryHandler.NoStarNoGuess: it covers a text without any `*`. A text with a single `*`, which also throws, is covered only through the general `FirstGuessFrom` contract.
- Regular expressions in the payload routing are predicates written for the three anchored patterns (`.` excludes the four line terminators). They are not a general regular-expression engine.
- The browser session of utils/seleniumScript.js (WebDriver, navigation, sleeps, clicks, XPath and CSS look-ups) is not modelled. The site is a function from the selected options to rows of cell texts. Whether a row's look-up of one hour label was fulfilled or rejected is part of that data.
- `new Date(date * 1000)` and its `getHours`, `getMinutes` and `getDay` calls depend on the host time zone. Hours, minutes and weekday are inputs.
- Sending messages, `saveUserData` and `loadUserData` are I/O. `Promise.all` fan-out and the asynchronous order of messages are not modelled either. The handlers return what they would send or store.
- The i18n phrases are not modelled. These are the texts of the add, delete, save, go, cancel and guess replies, and the language handler's confirmations. Their keyboards are modelled where a payload is in them.
- `handleGo` and `handleCancel` send fixed texts and keyboards. Only their routing, and their failure on a missing record, is modelled.
- GetSearchResults.GetSearchResults: the direction is a text. A search whose context holds no direction is `undefined` in the source; `DirectionOption` maps it, like every text other than `zwolle`, to `Away`.
- The `lang` argument passed to `getSearchResults` is ignored there and is not modelled.
- selenium_script.js is a legacy script superseded by utils/seleniumScript.js and is not part of this model. The same goes for utils/dbFuncs.js, utils/db_funcs.js, func/bot_handlers/CommandHandler.js, func/304_bot.js, index.js, func/index.js and i18n.js: storage, transport and fixed command keyboards with no logic of their own.

## Findings

| source | as written | input that shows it | evidently intended | confidence | as-written member | corrected member |
|---|---|---|---|---|---|---|
| utils/favorites.js:23 | the add-favourites keyboard gives each stop the payload `#stop#`, which matches none of the `switch` cases, so pressing any of its buttons gets the unknown-query reply and nothing is saved | pressing the button `Apeldoorn, Station`, payload `#Apeldoorn, Station#` | payload `+stop+`, which the save test at func/bot_handlers/QueryHandler.js:108 accepts | high, not executed | QueryHandler.AddListButtonsUnknown | QueryHandler.GazetteerSaveList |
| func/bot_handlers/QueryHandler.js:99 | the delete list is built with `getFavoritesBtnList`, whose buttons carry `##stop##`, so pressing one starts a search and nothing is removed; no keyboard produces `#!stop!#` | stored favourite `Zwolle, Station`, delete list shown, its button pressed: payload `##Zwolle, Station##` | buttons with payload `#!stop!#`, which the delete test at func/bot_handlers/QueryHandler.js:139 accepts | high, not executed | QueryHandler.DeleteListSearches | QueryHandler.DeleteBtnListRemoves |
| func/bot_handlers/QueryHandler.js:59-63 | `a \|\| b ? c : 'en'` parses as `(a \|\| b) ? c : 'en'`, so a stored language still yields the client language, even an unsupported one | stored `nl`, client language `de`: locale `de` | the stored language first, then a supported client language, then `en` | medium, not executed | QueryHandler.UnknownQueryLocaleIgnoresStored | QueryHandler.IntendedLocaleProperties |
