/**
 * func/bot_handlers/QueryHandler.js: what the bot does with the payload of a pressed inline
 * button. `handleQueries` routes the payload; `handleFavorites` decodes the three dynamic payload
 * forms and updates the list of favourite stops; the language and direction handlers store the
 * payload without its `_`; `handleGuess` reads the suggested stop back out of the message text.
 * Messages and storage are effects here: the model computes what is sent and what is stored.
 */
module QueryHandler {
  import opened Wrappers
  import opened Strings
  import SeleniumTexts
  import BotTexts
  import Favorites
  import NormalizeBusStop

  // Payload patterns.

  /** No character of `s` ends a line, so a regular-expression `.` matches each of them. */
  predicate NoLineTerminator(s: string) {
    forall k :: 0 <= k < |s| ==> !IsLineTerminator(s[k])
  }

  /** `/^#{2}.+#{2}$/`: `##`, at least one character, `##`, all on one line. */
  predicate IsSearchPayload(data: string) {
    |data| >= 5 && data[..2] == "##" && data[|data| - 2..] == "##" && NoLineTerminator(data[2..|data| - 2])
  }

  /** `/^#!.+!#$/`: `#!`, at least one character, `!#`, all on one line. */
  predicate IsDeletePayload(data: string) {
    |data| >= 5 && data[..2] == "#!" && data[|data| - 2..] == "!#" && NoLineTerminator(data[2..|data| - 2])
  }

  /** `/^\+[^+]+\+$/`: `+`, at least one character other than `+`, `+`. */
  predicate IsSavePayload(data: string) {
    |data| >= 3 && data[0] == '+' && data[|data| - 1] == '+' && '+' !in data[1..|data| - 1]
  }

  /** `String(data.match(re))` for an anchored pattern: the whole payload when it matches, else `"null"`. */
  function MatchString(matched: bool, data: string): string {
    if matched then data else "null"
  }

  /** The handler `handleQueries` hands a payload to. */
  datatype Route = FavoritesRoute | LangRoute | DirectionRoute | GoRoute | CancelRoute | GuessRoute | UnknownRoute

  /** The `switch` of `handleQueries`: the first case whose value equals the payload wins. */
  function RouteOf(data: string): (r: Route)
    ensures |data| > 0 && data[0] == '_' ==>
      (r == FavoritesRoute <==> data == BotTexts.AddFavorites || data == BotTexts.DeleteFavorites)
    ensures r == LangRoute <==> data == BotTexts.LangEn || data == BotTexts.LangNl || data == BotTexts.LangUk
    ensures r == DirectionRoute <==> data == BotTexts.ApeldoornQuery || data == BotTexts.ZwolleQuery
    ensures r == GoRoute <==> data == BotTexts.Go
    ensures r == CancelRoute <==> data == BotTexts.Cancel
    ensures r == GuessRoute <==> data == BotTexts.GuessCorrect || data == BotTexts.GuessIncorrect
  {
    UnderscoreIsNoPattern(data);
    if || data == BotTexts.AddFavorites
       || data == BotTexts.DeleteFavorites
       || data == MatchString(IsSearchPayload(data), data)
       || data == MatchString(IsDeletePayload(data), data)
       || data == MatchString(IsSavePayload(data), data)
    then FavoritesRoute
    else if data == BotTexts.LangEn || data == BotTexts.LangNl || data == BotTexts.LangUk then LangRoute
    else if data == BotTexts.ApeldoornQuery || data == BotTexts.ZwolleQuery then DirectionRoute
    else if data == BotTexts.Go then GoRoute
    else if data == BotTexts.Cancel then CancelRoute
    else if data == BotTexts.GuessCorrect || data == BotTexts.GuessIncorrect then GuessRoute
    else UnknownRoute
  }

  /**
   * A payload goes to `handleFavorites` exactly when it is one of the two favourites actions,
   * matches one of the three patterns, or is the text `null`, which equals `String(null)`.
   */
  lemma FavoritesRouteExactly(data: string)
    ensures RouteOf(data) == FavoritesRoute <==>
      || data == BotTexts.AddFavorites || data == BotTexts.DeleteFavorites
      || IsSearchPayload(data) || IsDeletePayload(data) || IsSavePayload(data)
      || data == "null"
  {
  }

  /** The three patterns differ in their first two characters: no payload matches two of them. */
  lemma PayloadKindsDisjoint(data: string)
    ensures !(IsSearchPayload(data) && IsDeletePayload(data))
    ensures !(IsSearchPayload(data) && IsSavePayload(data))
    ensures !(IsDeletePayload(data) && IsSavePayload(data))
  {
    if |data| >= 2 {
      assert data[..2][0] == data[0] && data[..2][1] == data[1];
    }
  }

  /** A payload that starts with `_` matches none of the patterns and is not `null`. */
  lemma UnderscoreIsNoPattern(data: string)
    ensures |data| > 0 && data[0] == '_' ==>
      !IsSearchPayload(data) && !IsDeletePayload(data) && !IsSavePayload(data) && data != "null"
  {
    if |data| >= 2 && data[0] == '_' {
      assert data[..2][0] == data[0];
    }
  }

  /** The settings payloads reach the language and direction handlers. */
  lemma SettingRoutes()
    ensures RouteOf(BotTexts.LangEn) == LangRoute && RouteOf(BotTexts.LangNl) == LangRoute
    ensures RouteOf(BotTexts.LangUk) == LangRoute
    ensures RouteOf(BotTexts.ZwolleQuery) == DirectionRoute && RouteOf(BotTexts.ApeldoornQuery) == DirectionRoute
  {
    UnderscoreIsNoPattern(BotTexts.LangEn);
    UnderscoreIsNoPattern(BotTexts.LangNl);
    UnderscoreIsNoPattern(BotTexts.LangUk);
    UnderscoreIsNoPattern(BotTexts.ZwolleQuery);
    UnderscoreIsNoPattern(BotTexts.ApeldoornQuery);
  }

  /** The other action payloads reach their own handlers. */
  lemma ActionRoutes()
    ensures RouteOf(BotTexts.AddFavorites) == FavoritesRoute && RouteOf(BotTexts.DeleteFavorites) == FavoritesRoute
    ensures RouteOf(BotTexts.Go) == GoRoute && RouteOf(BotTexts.Cancel) == CancelRoute
    ensures RouteOf(BotTexts.GuessCorrect) == GuessRoute && RouteOf(BotTexts.GuessIncorrect) == GuessRoute
  {
    UnderscoreIsNoPattern(BotTexts.Go);
    UnderscoreIsNoPattern(BotTexts.Cancel);
    UnderscoreIsNoPattern(BotTexts.GuessCorrect);
    UnderscoreIsNoPattern(BotTexts.GuessIncorrect);
  }

  // Decoding the three payload forms.

  /** `data.replace(/\+/g, '')`. */
  function SaveDecode(data: string): string {
    RemoveAll(data, '+')
  }

  /** `data.replace(/^#!|!#$/g, '')`: a leading `#!` and, after it, a trailing `!#` are removed. */
  function DeleteDecode(data: string): string {
    var start := if |data| >= 2 && data[..2] == "#!" then 2 else 0;
    var end := if |data| - 2 >= start && data[|data| - 2..] == "!#" then |data| - 2 else |data|;
    data[start..end]
  }

  /** `data.replace(/\#/g, '')`. */
  function SearchDecode(data: string): string {
    RemoveAll(data, '#')
  }

  lemma {:induction false} MarkRemoved(mark: string, c: char)
    requires forall k :: 0 <= k < |mark| ==> mark[k] == c
    ensures RemoveAll(mark, c) == []
    decreases |mark|
  {
    if mark != [] {
      MarkRemoved(mark[1..], c);
    }
  }

  /** A stop without `+` survives the `+s+` encoding and the decoding. */
  lemma SaveRoundTrip(s: string)
    requires s != [] && '+' !in s
    ensures IsSavePayload("+" + s + "+")
    ensures SaveDecode("+" + s + "+") == s
  {
    var data := "+" + s + "+";
    assert data[1..|data| - 1] == s;
    RemoveAllAppend("+" + s, "+", '+');
    RemoveAllAppend("+", s, '+');
    RemoveAllAbsent(s, '+');
  }

  /** Every save payload is the `+s+` encoding of its decoding, which is not empty. */
  lemma SaveDecodeEncode(data: string)
    requires IsSavePayload(data)
    ensures SaveDecode(data) != [] && '+' !in SaveDecode(data)
    ensures data == "+" + SaveDecode(data) + "+"
  {
    var s := data[1..|data| - 1];
    assert data == "+" + s + "+";
    SaveRoundTrip(s);
  }

  /** A one-line stop survives the `#!s!#` encoding and the decoding, whatever else it holds. */
  lemma DeleteRoundTrip(s: string)
    requires s != [] && NoLineTerminator(s)
    ensures IsDeletePayload("#!" + s + "!#")
    ensures DeleteDecode("#!" + s + "!#") == s
  {
    var data := "#!" + s + "!#";
    assert data[..2] == "#!" && data[|data| - 2..] == "!#";
    assert data[2..|data| - 2] == s;
  }

  /** Every delete payload is the `#!s!#` encoding of its decoding. */
  lemma DeleteDecodeEncode(data: string)
    requires IsDeletePayload(data)
    ensures DeleteDecode(data) == data[2..|data| - 2] != []
    ensures data == "#!" + DeleteDecode(data) + "!#"
  {
    assert data == data[..2] + data[2..|data| - 2] + data[|data| - 2..];
  }

  /**
   * A one-line stop is a search payload once wrapped in `##`; decoding gives it back exactly when
   * it holds no `#` (one inside is dropped: `##a#b##` searches for `ab`).
   */
  lemma SearchRoundTrip(s: string)
    requires s != [] && NoLineTerminator(s)
    ensures IsSearchPayload("##" + s + "##")
    ensures SearchDecode("##" + s + "##") == s <==> '#' !in s
  {
    var data := "##" + s + "##";
    assert data[..2] == "##" && data[|data| - 2..] == "##";
    assert data[2..|data| - 2] == s;
    if '#' in s {
      return;
    }
    RemoveAllAppend("##" + s, "##", '#');
    RemoveAllAppend("##", s, '#');
    RemoveAllAbsent(s, '#');
    MarkRemoved("##", '#');
  }

  // The favourites list.

  /** The position of the first `x` in `xs`. */
  function FirstIndex(xs: seq<string>, x: string): (i: nat)
    requires x in xs
    ensures i < |xs| && xs[i] == x && x !in xs[..i]
  {
    if xs[0] == x then 0 else 1 + FirstIndex(xs[1..], x)
  }

  /** `Array.from(new Set(xs))`: each element once, where it first occurs. */
  function Dedup(xs: seq<string>): (r: seq<string>)
    ensures SeleniumTexts.Distinct(r)
    ensures forall x :: x in r <==> x in xs
    decreases |xs|
  {
    if xs == [] then []
    else
      var d := Dedup(xs[..|xs| - 1]);
      var x := xs[|xs| - 1];
      if x in d then d else d + [x]
  }

  /** Appending an element does not move the first occurrence of one already there. */
  lemma FirstIndexAppend(xs: seq<string>, x: string, y: string)
    requires y in xs
    ensures FirstIndex(xs + [x], y) == FirstIndex(xs, y)
  {
    var j := FirstIndex(xs, y);
    assert (xs + [x])[..j] == xs[..j];
    assert (xs + [x])[j] == y;
  }

  /** The elements of `Dedup(xs)` come in the order of their first occurrences in `xs`. */
  lemma {:induction false} DedupOrder(xs: seq<string>)
    ensures forall i, j :: 0 <= i < j < |Dedup(xs)| ==>
      FirstIndex(xs, Dedup(xs)[i]) < FirstIndex(xs, Dedup(xs)[j])
    decreases |xs|
  {
    if xs != [] {
      var init := xs[..|xs| - 1];
      var x := xs[|xs| - 1];
      assert xs == init + [x];
      DedupOrder(init);
      var d := Dedup(init);
      forall y | y in d ensures FirstIndex(xs, y) == FirstIndex(init, y) {
        FirstIndexAppend(init, x, y);
      }
      if x !in d {
        assert FirstIndex(xs, x) == |init| by {
          assert x !in xs[..|init|];
        }
        forall i, j | 0 <= i < j < |d + [x]| ensures FirstIndex(xs, (d + [x])[i]) < FirstIndex(xs, (d + [x])[j]) {
          assert (d + [x])[i] == d[i];
          if j < |d| {
            assert (d + [x])[j] == d[j];
          }
        }
      }
    }
  }

  /** A list without repeats is left as it is. */
  lemma {:induction false} DedupOfDistinct(xs: seq<string>)
    requires SeleniumTexts.Distinct(xs)
    ensures Dedup(xs) == xs
    decreases |xs|
  {
    if xs != [] {
      var init := xs[..|xs| - 1];
      assert SeleniumTexts.Distinct(init);
      DedupOfDistinct(init);
      assert xs[|xs| - 1] !in init;
      assert init + [xs[|xs| - 1]] == xs;
    }
  }

  /** The list stored after `+s+`: the old list with `s` added, each stop once. */
  function SaveFavorite(favorites: seq<string>, s: string): seq<string> {
    Dedup(favorites + [s])
  }

  /**
   * Saving keeps every old favourite and adds `s`, without repeats; on a list without repeats
   * `s` is appended exactly when it is absent, and nothing else moves.
   */
  lemma SaveFavoriteEffect(favorites: seq<string>, s: string)
    ensures s in SaveFavorite(favorites, s) && SeleniumTexts.Distinct(SaveFavorite(favorites, s))
    ensures forall x :: x in SaveFavorite(favorites, s) <==> x in favorites || x == s
    ensures SeleniumTexts.Distinct(favorites) ==>
      SaveFavorite(favorites, s) == if s in favorites then favorites else favorites + [s]
  {
    var xs := favorites + [s];
    assert xs[..|xs| - 1] == favorites;
    if SeleniumTexts.Distinct(favorites) {
      DedupOfDistinct(favorites);
    }
  }

  /** Repeats already in the stored list collapse on the next save: `[a, a]` saved with `b` is `[a, b]`. */
  lemma SaveCollapsesRepeats(a: string, b: string)
    requires a != b
    ensures SaveFavorite([a, a], b) == [a, b]
  {
    assert [a][..0] == [];
    assert Dedup([a]) == [a];
    assert [a, a][..1] == [a];
    assert Dedup([a, a]) == [a];
    assert [a, a] + [b] == [a, a, b];
    assert [a, a, b][..2] == [a, a];
  }

  /** `favorite_stops.filter(stop => stop !== s)`. */
  function DeleteFavorite(favorites: seq<string>, s: string): (r: seq<string>)
    ensures s !in r
    ensures forall x :: x in r <==> x in favorites && x != s
    ensures |r| <= |favorites|
    decreases |favorites|
  {
    if favorites == [] then []
    else
      var init := favorites[..|favorites| - 1];
      var x := favorites[|favorites| - 1];
      assert favorites == init + [x];
      DeleteFavorite(init, s) + (if x == s then [] else [x])
  }

  /** Removal works piece by piece, so the remaining stops keep their order. */
  lemma {:induction false} DeleteFavoriteAppend(xs: seq<string>, ys: seq<string>, s: string)
    ensures DeleteFavorite(xs + ys, s) == DeleteFavorite(xs, s) + DeleteFavorite(ys, s)
    decreases |ys|
  {
    if ys == [] {
      assert xs + ys == xs;
    } else {
      var init := ys[..|ys| - 1];
      assert (xs + ys)[..|xs + ys| - 1] == xs + init;
      DeleteFavoriteAppend(xs, init, s);
    }
  }

  /** Removing a stop that is not there changes nothing. */
  lemma {:induction false} DeleteAbsent(favorites: seq<string>, s: string)
    requires s !in favorites
    ensures DeleteFavorite(favorites, s) == favorites
    decreases |favorites|
  {
    if favorites != [] {
      var init := favorites[..|favorites| - 1];
      DeleteAbsent(init, s);
      assert init + [favorites[|favorites| - 1]] == favorites;
    }
  }

  /** Removal keeps a list without repeats without repeats. */
  lemma {:induction false} DeleteKeepsDistinct(favorites: seq<string>, s: string)
    requires SeleniumTexts.Distinct(favorites)
    ensures SeleniumTexts.Distinct(DeleteFavorite(favorites, s))
    decreases |favorites|
  {
    if favorites != [] {
      var init := favorites[..|favorites| - 1];
      var x := favorites[|favorites| - 1];
      assert SeleniumTexts.Distinct(init);
      assert x !in init;
      DeleteKeepsDistinct(init, s);
      var d := DeleteFavorite(init, s);
      assert x !in d;
    }
  }

  /** Saving a new stop and then deleting it gives the old list back. */
  lemma DeleteAfterSave(favorites: seq<string>, s: string)
    requires SeleniumTexts.Distinct(favorites) && s !in favorites
    ensures DeleteFavorite(SaveFavorite(favorites, s), s) == favorites
  {
    SaveFavoriteEffect(favorites, s);
    DeleteFavoriteAppend(favorites, [s], s);
    DeleteAbsent(favorites, s);
    assert DeleteFavorite([s], s) == [] by {
      assert [s][..0] == [];
    }
  }

  /** Deleting a stop and then saving it moves it to the end, the others in their order. */
  lemma SaveAfterDelete(favorites: seq<string>, s: string)
    requires SeleniumTexts.Distinct(favorites)
    ensures SaveFavorite(DeleteFavorite(favorites, s), s) == DeleteFavorite(favorites, s) + [s]
  {
    DeleteKeepsDistinct(favorites, s);
    SaveFavoriteEffect(DeleteFavorite(favorites, s), s);
  }

  // handleFavorites.

  /**
   * What a search started by a button is given besides the stop: the `date` of the message that
   * carries the keyboard, which is not the moment of the press, and the stored direction (`None`
   * when none is stored; the scraper then selects the outward trip).
   */
  datatype SearchContext = SearchContext(messageDate: int, direction: Option<string>)

  /** What `handleFavorites` does: a keyboard sent, a list stored with its confirmation, or a search. */
  datatype Effect =
    | AddList(keyboard: seq<seq<Favorites.Button>>)
    | DeleteList(keyboard: seq<seq<Favorites.Button>>)
    | Saved(favorites: seq<string>, shownStop: string)
    | Removed(favorites: seq<string>, shownStop: string)
    | Search(busStop: string, context: SearchContext)

  /**
   * `handleFavorites`: five independent tests of the payload, in order, each contributing its
   * effect. The stored list and the stop named in a confirmation come from the decoded payload.
   * At most one test succeeds, and one does exactly for the payloads routed here other than `null`.
   */
  function HandleFavorites(data: string, favorites: seq<string>, context: SearchContext): (r: seq<Effect>)
    ensures |r| <= 1
    ensures |r| == 1 <==> RouteOf(data) == FavoritesRoute && data != "null"
  {
    PayloadKindsDisjoint(data);
    UnderscoreIsNoPattern(data);
    FavoritesRouteExactly(data);
    (if data == BotTexts.AddFavorites then [AddList(Favorites.AllStopsBtnList())] else [])
    + (if data == BotTexts.DeleteFavorites then [DeleteList(Favorites.FavoritesBtnList(favorites))] else [])
    + (if IsSavePayload(data)
       then [Saved(SaveFavorite(favorites, SaveDecode(data)), NormalizeBusStop.NormalizeBusStop(SaveDecode(data)))]
       else [])
    + (if IsDeletePayload(data)
       then [Removed(DeleteFavorite(favorites, DeleteDecode(data)), NormalizeBusStop.NormalizeBusStop(DeleteDecode(data)))]
       else [])
    + (if IsSearchPayload(data) then [Search(SearchDecode(data), context)] else [])
  }

  /** Pressing `+s+` stores the list with `s` saved and confirms `s` as it is shown. */
  lemma SavePayloadSaves(s: string, favorites: seq<string>, context: SearchContext)
    requires s != [] && '+' !in s
    ensures RouteOf("+" + s + "+") == FavoritesRoute
    ensures HandleFavorites("+" + s + "+", favorites, context)
      == [Saved(SaveFavorite(favorites, s), NormalizeBusStop.NormalizeBusStop(s))]
  {
    var data := "+" + s + "+";
    SaveRoundTrip(s);
    PayloadKindsDisjoint(data);
    assert data[0] == '+';
  }

  /** Pressing `#!s!#` stores the list with `s` removed and confirms `s` as it is shown. */
  lemma DeletePayloadDeletes(s: string, favorites: seq<string>, context: SearchContext)
    requires s != [] && NoLineTerminator(s)
    ensures RouteOf("#!" + s + "!#") == FavoritesRoute
    ensures HandleFavorites("#!" + s + "!#", favorites, context)
      == [Removed(DeleteFavorite(favorites, s), NormalizeBusStop.NormalizeBusStop(s))]
  {
    var data := "#!" + s + "!#";
    DeleteRoundTrip(s);
    PayloadKindsDisjoint(data);
    assert data != BotTexts.AddFavorites && data != BotTexts.DeleteFavorites && data != "null" by {
      assert data[0] == '#';
    }
  }

  /** Pressing `##s##` searches from `s`. */
  lemma SearchPayloadSearches(s: string, favorites: seq<string>, context: SearchContext)
    requires s != [] && NoLineTerminator(s) && '#' !in s
    ensures RouteOf("##" + s + "##") == FavoritesRoute
    ensures HandleFavorites("##" + s + "##", favorites, context) == [Search(s, context)]
  {
    var data := "##" + s + "##";
    SearchRoundTrip(s);
    PayloadKindsDisjoint(data);
    assert data[0] == '#';
  }

  /** A stop the payload codecs can carry: not empty, on one line, without `#`, `+`, `!` or `*`. */
  predicate Carriable(s: string) {
    s != [] && NoLineTerminator(s) && '#' !in s && '+' !in s && '!' !in s && '*' !in s
  }

  /** A gazetteer stop is carriable. */
  lemma PlainNameCarriable(s: string)
    requires SeleniumTexts.PlainName(s) && s != []
    ensures Carriable(s)
  {
    SeleniumTexts.PlainNameMarkFree(s);
  }

  /** A list of non-empty plain names is a list of carriable stops. */
  lemma GazetteerCarriable(stops: seq<string>)
    requires forall k :: 0 <= k < |stops| ==> SeleniumTexts.PlainName(stops[k]) && SeleniumTexts.LetterEnds(stops[k])
    ensures forall k :: 0 <= k < |stops| ==> Carriable(stops[k])
  {
    forall k | 0 <= k < |stops| ensures Carriable(stops[k]) {
      PlainNameCarriable(stops[k]);
    }
  }

  /** Every button of the favourites keyboard searches from the stop it is labelled with. */
  lemma FavoritesButtonsSearch(stops: seq<string>, favorites: seq<string>, context: SearchContext)
    requires forall k :: 0 <= k < |stops| ==> Carriable(stops[k])
    ensures forall i :: 0 <= i < |Flatten(Favorites.FavoritesBtnList(stops))| ==>
      var b := Flatten(Favorites.FavoritesBtnList(stops))[i];
      RouteOf(b.callbackData) == FavoritesRoute && HandleFavorites(b.callbackData, favorites, context) == [Search(b.text, context)]
  {
    Favorites.FavoritesBtnListShape(stops);
    var buttons := Flatten(Favorites.FavoritesBtnList(stops));
    forall i | 0 <= i < |buttons|
      ensures RouteOf(buttons[i].callbackData) == FavoritesRoute
      ensures HandleFavorites(buttons[i].callbackData, favorites, context) == [Search(buttons[i].text, context)]
    {
      assert buttons[i] == Favorites.Button(stops[i], "##" + stops[i] + "##");
      SearchPayloadSearches(stops[i], favorites, context);
    }
  }

  /**
   * The keyboard `_delete_favorites` sends is the favourites keyboard: its buttons carry `##s##`,
   * so pressing one searches from the stop and deletes nothing.
   */
  lemma DeleteListSearches(favorites: seq<string>, stored: seq<string>, context: SearchContext)
    requires forall k :: 0 <= k < |favorites| ==> Carriable(favorites[k])
    ensures HandleFavorites(BotTexts.DeleteFavorites, favorites, context) == [DeleteList(Favorites.FavoritesBtnList(favorites))]
    ensures forall i :: 0 <= i < |Flatten(Favorites.FavoritesBtnList(favorites))| ==>
      var b := Flatten(Favorites.FavoritesBtnList(favorites))[i];
      HandleFavorites(b.callbackData, stored, context) == [Search(b.text, context)]
  {
    UnderscoreIsNoPattern(BotTexts.DeleteFavorites);
    FavoritesButtonsSearch(favorites, stored, context);
  }

  /** `#s#` for a name that starts with a letter matches no case of the switch. */
  lemma AddListPayloadUnknown(s: string)
    requires SeleniumTexts.LetterEnds(s)
    ensures RouteOf("#" + s + "#") == UnknownRoute
  {
    var data := "#" + s + "#";
    assert data[0] == '#' && data[1] == s[0];
    assert data[..2][1] == data[1];
    assert data != "null" by {
      assert "null"[0] == 'n';
    }
  }

  /** Every button of a `#s#` keyboard of names that start with a letter reaches the unknown-query reply. */
  lemma StopsButtonsUnknown(stops: seq<string>)
    requires forall k :: 0 <= k < |stops| ==> SeleniumTexts.LetterEnds(stops[k])
    ensures forall i :: 0 <= i < |Flatten(Favorites.StopsBtnList(stops))| ==>
      RouteOf(Flatten(Favorites.StopsBtnList(stops))[i].callbackData) == UnknownRoute
  {
    Favorites.ButtonRows(stops, "#", 3);
    var buttons := Favorites.Buttons(stops, "#");
    forall i | 0 <= i < |buttons| ensures RouteOf(buttons[i].callbackData) == UnknownRoute {
      AddListPayloadUnknown(stops[i]);
    }
  }

  /** Every button of the all-stops keyboard `_add_favorites` sends reaches the unknown-query reply. */
  lemma AddListButtonsUnknown()
    ensures forall i :: 0 <= i < |Flatten(Favorites.AllStopsBtnList())| ==>
      RouteOf(Flatten(Favorites.AllStopsBtnList())[i].callbackData) == UnknownRoute
  {
    SeleniumTexts.BusStopsNames();
    StopsButtonsUnknown(SeleniumTexts.BusStops);
  }

  /** The sample payloads: `#stop#` matches no handler, `##stop##` searches from `stop`. */
  lemma SamplePayloads(favorites: seq<string>, context: SearchContext)
    ensures RouteOf(BotTexts.FavoriteStopSample) == UnknownRoute
    ensures HandleFavorites(BotTexts.SelectFavoriteSample, favorites, context) == [Search("stop", context)]
  {
    AddListPayloadUnknown("stop");
    assert BotTexts.FavoriteStopSample == "#" + "stop" + "#";
    assert BotTexts.SelectFavoriteSample == "##" + "stop" + "##";
    SearchPayloadSearches("stop", favorites, context);
  }

  /** A keyboard whose buttons carry `+s+`: what the save test accepts. */
  function SaveBtnList(stops: seq<string>): seq<seq<Favorites.Button>> {
    Favorites.Chunks(Favorites.Buttons(stops, "+"), 3)
  }

  /** Every button of a `+s+` keyboard of carriable stops saves the stop it is labelled with. */
  lemma SaveBtnListSaves(stops: seq<string>, favorites: seq<string>, context: SearchContext)
    requires forall k :: 0 <= k < |stops| ==> Carriable(stops[k])
    ensures Flatten(SaveBtnList(stops)) == Favorites.Buttons(stops, "+")
    ensures forall i :: 0 <= i < |Flatten(SaveBtnList(stops))| ==>
      var b := Flatten(SaveBtnList(stops))[i];
      HandleFavorites(b.callbackData, favorites, context)
        == [Saved(SaveFavorite(favorites, b.text), NormalizeBusStop.NormalizeBusStop(b.text))]
  {
    Favorites.ButtonRows(stops, "+", 3);
    var buttons := Favorites.Buttons(stops, "+");
    forall i | 0 <= i < |buttons|
      ensures HandleFavorites(buttons[i].callbackData, favorites, context)
        == [Saved(SaveFavorite(favorites, buttons[i].text), NormalizeBusStop.NormalizeBusStop(buttons[i].text))]
    {
      SavePayloadSaves(stops[i], favorites, context);
    }
  }

  /** The all-stops keyboard as the save test accepts it: every gazetteer stop, saved when pressed. */
  lemma GazetteerSaveList(favorites: seq<string>, context: SearchContext)
    ensures Flatten(SaveBtnList(SeleniumTexts.BusStops)) == Favorites.Buttons(SeleniumTexts.BusStops, "+")
    ensures forall i :: 0 <= i < |Flatten(SaveBtnList(SeleniumTexts.BusStops))| ==>
      var b := Flatten(SaveBtnList(SeleniumTexts.BusStops))[i];
      HandleFavorites(b.callbackData, favorites, context)
        == [Saved(SaveFavorite(favorites, b.text), NormalizeBusStop.NormalizeBusStop(b.text))]
  {
    SeleniumTexts.BusStopsNames();
    GazetteerCarriable(SeleniumTexts.BusStops);
    SaveBtnListSaves(SeleniumTexts.BusStops, favorites, context);
  }

  /** One `#!s!#` button per stop, labelled with the stop. */
  function DeleteButtons(stops: seq<string>): (r: seq<Favorites.Button>)
    ensures |r| == |stops|
    ensures forall i :: 0 <= i < |stops| ==> r[i] == Favorites.Button(stops[i], "#!" + stops[i] + "!#")
  {
    if stops == [] then [] else [Favorites.Button(stops[0], "#!" + stops[0] + "!#")] + DeleteButtons(stops[1..])
  }

  /** The favourites keyboard as the delete test accepts it: same rows, `#!s!#` payloads. */
  function DeleteBtnList(stops: seq<string>): seq<seq<Favorites.Button>> {
    if |stops| == 0 then [] else Favorites.Chunks(DeleteButtons(stops), if |stops| >= 3 then 3 else 2)
  }

  /** Every button of a `#!s!#` keyboard removes the stop it is labelled with, and only that stop. */
  lemma DeleteBtnListRemoves(stops: seq<string>, favorites: seq<string>, context: SearchContext)
    requires forall k :: 0 <= k < |stops| ==> Carriable(stops[k])
    ensures Flatten(DeleteBtnList(stops)) == DeleteButtons(stops)
    ensures forall i :: 0 <= i < |Flatten(DeleteBtnList(stops))| ==>
      var b := Flatten(DeleteBtnList(stops))[i];
      HandleFavorites(b.callbackData, favorites, context)
        == [Removed(DeleteFavorite(favorites, b.text), NormalizeBusStop.NormalizeBusStop(b.text))]
  {
    if stops != [] {
      Favorites.FlattenChunks(DeleteButtons(stops), if |stops| >= 3 then 3 else 2);
    }
    var buttons := DeleteButtons(stops);
    forall i | 0 <= i < |buttons|
      ensures HandleFavorites(buttons[i].callbackData, favorites, context)
        == [Removed(DeleteFavorite(favorites, buttons[i].text), NormalizeBusStop.NormalizeBusStop(buttons[i].text))]
    {
      DeletePayloadDeletes(stops[i], favorites, context);
    }
  }

  // Language and direction.

  /** `data.replace('_', '')`: the payload without its first `_`, as stored for language and direction. */
  function SettingValue(data: string): string {
    ReplaceFirst(data, '_', "")
  }

  /** The payloads routed to the language handler store `en`, `nl` or `uk`. */
  lemma LangSetting(data: string)
    requires RouteOf(data) == LangRoute
    ensures SettingValue(data) in ["en", "nl", "uk"]
  {
    BotTexts.LanguageCodes();
  }

  /** The payloads routed to the direction handler store one of the two directions. */
  lemma DirectionSetting(data: string)
    requires RouteOf(data) == DirectionRoute
    ensures SettingValue(data) in SeleniumTexts.Directions
  {
    BotTexts.DirectionCodes();
  }

  /** What the direction handler sends and stores. */
  datatype DirectionChoice = DirectionChoice(keyboard: Option<seq<seq<Favorites.Button>>>, direction: string)

  /** `handleDirection`: the favourites keyboard when there are favourites, and the direction stored. */
  function HandleDirection(data: string, favorites: seq<string>): (r: DirectionChoice)
    ensures r.keyboard.Some? <==> favorites != []
    ensures r.keyboard.Some? ==> Flatten(r.keyboard.value) == Favorites.Buttons(favorites, "##")
  {
    Favorites.FavoritesBtnListShape(favorites);
    DirectionChoice(if |favorites| > 0 then Some(Favorites.FavoritesBtnList(favorites)) else None, SettingValue(data))
  }

  /**
   * After choosing a direction, the user sees a keyboard exactly when there are favourites, and
   * each of its buttons searches from its stop.
   */
  lemma DirectionOffersFavorites(data: string, favorites: seq<string>, context: SearchContext)
    requires RouteOf(data) == DirectionRoute
    requires forall k :: 0 <= k < |favorites| ==> Carriable(favorites[k])
    ensures HandleDirection(data, favorites).direction in SeleniumTexts.Directions
    ensures HandleDirection(data, favorites).keyboard.Some? <==> favorites != []
    ensures favorites != [] ==> forall i :: 0 <= i < |Flatten(HandleDirection(data, favorites).keyboard.value)| ==>
      var b := Flatten(HandleDirection(data, favorites).keyboard.value)[i];
      HandleFavorites(b.callbackData, favorites, context) == [Search(b.text, context)]
  {
    DirectionSetting(data);
    FavoritesButtonsSearch(favorites, favorites, context);
  }

  // The unknown-query reply.

  /** The locales the bot has texts for. */
  predicate Supported(code: Option<string>) {
    code.Some? && code.value in ["en", "uk", "nl"]
  }

  /**
   * The locale expression of the default branch. `||` binds tighter than `?:`, so it reads
   * `(stored || supported(client)) ? client : 'en'`; `None` is a missing code.
   */
  function UnknownQueryLocale(stored: Option<string>, client: Option<string>): Option<string> {
    if (stored.Some? && stored.value != "") || Supported(client) then client else Some("en")
  }

  /**
   * With a stored language the sender's client language is used whatever it is, even when the
   * bot has no texts for it or it is missing; without one, an unsupported client gets `en`.
   */
  lemma UnknownQueryLocaleIgnoresStored(stored: Option<string>, client: Option<string>)
    ensures stored.Some? && stored.value != "" ==> UnknownQueryLocale(stored, client) == client
    ensures UnknownQueryLocale(Some("nl"), Some("de")) == Some("de")
    ensures UnknownQueryLocale(Some("nl"), None) == None
    ensures (stored.None? || stored.value == "") && !Supported(client) ==> UnknownQueryLocale(stored, client) == Some("en")
  {
  }

  /** The evidently intended locale: the stored language, else the client's when supported, else `en`. */
  function IntendedLocale(stored: Option<string>, client: Option<string>): string {
    if stored.Some? && stored.value != "" then stored.value
    else if Supported(client) then client.value
    else "en"
  }

  /**
   * The intended locale is the stored language when there is one and otherwise always one the
   * bot has texts for; without a stored language it agrees with the expression as written.
   */
  lemma IntendedLocaleProperties(stored: Option<string>, client: Option<string>)
    ensures stored.Some? && stored.value != "" ==> IntendedLocale(stored, client) == stored.value
    ensures (stored.None? || stored.value == "") ==> Supported(Some(IntendedLocale(stored, client)))
    ensures (stored.None? || stored.value == "") ==> UnknownQueryLocale(stored, client) == Some(IntendedLocale(stored, client))
  {
  }

  // The guess.

  /** The first `*` at or after `p`, or -1. */
  function StarFrom(text: string, p: nat): (q: int)
    requires p <= |text|
    ensures q == -1 <==> '*' !in text[p..]
    ensures q != -1 ==> p <= q < |text| && text[q] == '*' && '*' !in text[p..q]
  {
    var i := IndexOf(text[p..], '*');
    assert i != -1 ==> text[p..][..i] == text[p..p + i];
    if i == -1 then -1 else p + i
  }

  /**
   * `/(?<=\*)(.*?)(?=\*)/` succeeds at position `p`: a `*` just before, and the nearest `*`
   * from `p` on is reached without crossing the end of a line.
   */
  predicate GuessAt(text: string, p: nat) {
    1 <= p <= |text| && text[p - 1] == '*'
    && StarFrom(text, p) != -1 && NoLineTerminator(text[p..StarFrom(text, p)])
  }

  /** The first position from `p` on where the pattern succeeds. */
  function FirstGuessFrom(text: string, p: nat): (r: Option<nat>)
    ensures r.Some? ==> p <= r.value && GuessAt(text, r.value)
    ensures r.Some? ==> forall j :: p <= j < r.value ==> !GuessAt(text, j)
    ensures r.None? ==> forall j :: p <= j ==> !GuessAt(text, j)
    decreases |text| + 1 - p
  {
    if p > |text| then None
    else if GuessAt(text, p) then Some(p)
    else FirstGuessFrom(text, p + 1)
  }

  /** `text.match(/(?<=\*)(.*?)(?=\*)/)[0].trim()`; `None` where `match` gives `null` and indexing it throws. */
  function ExtractGuess(text: string): Option<string> {
    match FirstGuessFrom(text, 0)
    case None => None
    case Some(p) => Some(Trim(text[p..StarFrom(text, p)]))
  }

  /** Reading back a stop written between two `*`, after a prefix without `*`, gives the stop, trimmed. */
  lemma ExtractBetweenStars(prefix: string, s: string, suffix: string)
    requires '*' !in prefix && '*' !in s && NoLineTerminator(s)
    ensures ExtractGuess(prefix + "*" + s + "*" + suffix) == Some(Trim(s))
  {
    var text := prefix + "*" + s + "*" + suffix;
    assert text[..|prefix|] == prefix && text[|prefix|] == '*';
    assert text[|prefix| + 1..] == s + "*" + suffix;
    GuessAfterFirstStar(text, |prefix|, s, suffix);
  }

  /** The guess is read from just after the first `*` of the text up to the next one. */
  lemma GuessAfterFirstStar(text: string, n: nat, s: string, suffix: string)
    requires n < |text| && '*' !in text[..n] && text[n] == '*' && text[n + 1..] == s + "*" + suffix
    requires '*' !in s && NoLineTerminator(s)
    ensures ExtractGuess(text) == Some(Trim(s))
  {
    GuessAfterPrefix(text, n);
    StopBetweenStars(text, n + 1, s, suffix);
    FirstGuessIs(text, n + 1);
  }

  /** The first position where the pattern succeeds is the one it succeeds at after failing everywhere before. */
  lemma FirstGuessIs(text: string, p: nat)
    requires GuessAt(text, p) && forall j :: 0 <= j < p ==> !GuessAt(text, j)
    ensures FirstGuessFrom(text, 0) == Some(p)
  {
  }

  /** The pattern cannot succeed before the first `*` has been passed. */
  lemma GuessAfterPrefix(text: string, n: nat)
    requires n <= |text| && '*' !in text[..n]
    ensures forall j :: 0 <= j <= n ==> !GuessAt(text, j)
  {
    forall j | 0 <= j <= n ensures !GuessAt(text, j) {
      if 1 <= j {
        assert text[j - 1] == text[..n][j - 1];
      }
    }
  }

  /** Right after a `*`, the pattern reaches the next `*` across a one-line stop. */
  lemma StopBetweenStars(text: string, p: nat, s: string, suffix: string)
    requires 1 <= p <= |text| && text[p - 1] == '*' && text[p..] == s + "*" + suffix
    requires '*' !in s && NoLineTerminator(s)
    ensures StarFrom(text, p) == p + |s| && text[p..p + |s|] == s
    ensures GuessAt(text, p)
  {
    IndexOfFirst(text[p..], '*', |s|);
    assert text[p..p + |s|] == text[p..][..|s|];
  }

  /** A text without `*` has no guess: the handler throws. */
  lemma NoStarNoGuess(text: string)
    requires '*' !in text
    ensures ExtractGuess(text) == None
  {
  }

  /** What `handleGuess` does; `NoGuessFound` is the `TypeError` of indexing the `null` that `match` gives. */
  datatype GuessReply = SearchGuess(stop: string, context: SearchContext) | NoGuessFound | GuessRejected | NoGuessReply

  /** `handleGuess`: a confirmed guess searches from the stop read back from the message. */
  function HandleGuess(data: string, text: string, context: SearchContext): (r: GuessReply)
    ensures r == GuessRejected <==> data == BotTexts.GuessIncorrect
    ensures r.SearchGuess? <==> data == BotTexts.GuessCorrect && ExtractGuess(text).Some?
    ensures r.SearchGuess? ==> ExtractGuess(text) == Some(r.stop) && r.context == context
    ensures r == NoGuessFound <==> data == BotTexts.GuessCorrect && ExtractGuess(text).None?
  {
    if data == BotTexts.GuessCorrect then
      match ExtractGuess(text)
      case Some(stop) => SearchGuess(stop, context)
      case None => NoGuessFound
    else if data == BotTexts.GuessIncorrect then GuessRejected
    else NoGuessReply
  }

  /** A confirmed guess searches from the stop read back from the message. */
  lemma ConfirmedGuess(text: string, stop: string, context: SearchContext)
    requires ExtractGuess(text) == Some(stop)
    ensures HandleGuess(BotTexts.GuessCorrect, text, context) == SearchGuess(stop, context)
  {
  }

  // handleQueries.

  /** The stored record of a user, as `loadUserData` gives it; a field the record lacks is `None`. */
  datatype UserData = UserData(languageCode: Option<string>, favoriteStops: Option<seq<string>>, direction: Option<string>)

  /** A pressed button: its payload, the date and text of the message with the keyboard, the sender's client language. */
  datatype CallbackQuery = CallbackQuery(data: string, messageDate: int, messageText: string, clientLanguage: Option<string>)

  /**
   * What `handleQueries` does with a pressed button. `Throws` is destructuring a missing user
   * record; the `TypeError` of a confirmation on a message without a guess is
   * `GuessHandled(NoGuessFound)`.
   */
  datatype QueryOutcome =
    | Throws
    | FavoritesHandled(effects: seq<Effect>)
    | LangHandled(languageCode: string)
    | DirectionHandled(choice: DirectionChoice)
    | GoHandled
    | CancelHandled
    | GuessHandled(reply: GuessReply)
    | UnknownHandled(locale: Option<string>)

  /** `favorite_stops = []`: the stored favourites, none when the record lacks them. */
  function StoredFavorites(user: UserData): seq<string> {
    user.favoriteStops.GetOr([])
  }

  /** A search started by the button gets the date of the message and the stored direction. */
  function ContextOf(q: CallbackQuery, user: UserData): SearchContext {
    SearchContext(q.messageDate, user.direction)
  }

  /**
   * `handleQueries`: the payload is routed, and the handler it reaches runs on the stored record.
   * `loadUserData` gives `undefined` for a user without a record; every handler but the language
   * handler and the default branch destructures it and throws. With a record, a confirmation on a
   * message without a guess throws in `handleGuess` instead.
   */
  function HandleQuery(q: CallbackQuery, user: Option<UserData>): (o: QueryOutcome)
    ensures o == Throws <==> user.None? && RouteOf(q.data) != LangRoute && RouteOf(q.data) != UnknownRoute
    ensures o == GuessHandled(NoGuessFound) <==>
      user.Some? && q.data == BotTexts.GuessCorrect && ExtractGuess(q.messageText).None?
  {
    match RouteOf(q.data)
    case LangRoute => LangHandled(SettingValue(q.data))
    case UnknownRoute =>
      UnknownHandled(UnknownQueryLocale(if user.Some? then user.value.languageCode else None, q.clientLanguage))
    case FavoritesRoute =>
      if user.None? then Throws
      else FavoritesHandled(HandleFavorites(q.data, StoredFavorites(user.value), ContextOf(q, user.value)))
    case DirectionRoute =>
      if user.None? then Throws else DirectionHandled(HandleDirection(q.data, StoredFavorites(user.value)))
    case GoRoute => if user.None? then Throws else GoHandled
    case CancelRoute => if user.None? then Throws else CancelHandled
    case GuessRoute =>
      if user.None? then Throws else GuessHandled(HandleGuess(q.data, q.messageText, ContextOf(q, user.value)))
  }

  /** A favourite's button searches from its stop at the date of the message with the keyboard, in the stored direction. */
  lemma FavoriteSearchContext(q: CallbackQuery, user: UserData, s: string)
    requires Carriable(s) && q.data == "##" + s + "##"
    ensures HandleQuery(q, Some(user))
      == FavoritesHandled([Search(s, SearchContext(q.messageDate, user.direction))])
  {
    SearchPayloadSearches(s, StoredFavorites(user), ContextOf(q, user));
  }

  /** A confirmed guess searches from the stop in the message at that message's date, in the stored direction. */
  lemma GuessSearchContext(q: CallbackQuery, user: UserData, stop: string)
    requires q.data == BotTexts.GuessCorrect && ExtractGuess(q.messageText) == Some(stop)
    ensures HandleQuery(q, Some(user))
      == GuessHandled(SearchGuess(stop, SearchContext(q.messageDate, user.direction)))
  {
    ActionRoutes();
  }

  /** A record without favourites gets an empty delete list. */
  lemma NoStoredFavoritesDeleteList(q: CallbackQuery, user: UserData)
    requires user.favoriteStops.None? && q.data == BotTexts.DeleteFavorites
    ensures HandleQuery(q, Some(user)) == FavoritesHandled([DeleteList([])])
  {
    ActionRoutes();
    DeleteListSearches([], [], ContextOf(q, user));
    Favorites.FavoritesBtnListShape([]);
  }

  /** A record without favourites chooses a direction without a keyboard. */
  lemma NoStoredFavoritesNoKeyboard(q: CallbackQuery, user: UserData)
    requires user.favoriteStops.None? && RouteOf(q.data) == DirectionRoute
    ensures HandleQuery(q, Some(user)) == DirectionHandled(DirectionChoice(None, SettingValue(q.data)))
  {
  }
}
