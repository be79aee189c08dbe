/**
 * The constant tables of dict/seleniumTexts.js: the two directions of the line, the weekday
 * numbering of `Date.getDay`, and the gazetteer of stops in line order.
 */
module SeleniumTexts {
  import opened Strings

  /** DIRECTIONS.ZWOLLE and DIRECTIONS.APELDOORN. */
  const Zwolle: string := "zwolle"
  const Apeldoorn: string := "apeldoorn"
  const Directions: seq<string> := [Zwolle, Apeldoorn]

  /** WEEKDAYS: Sunday is 0 and Saturday is 6, as `Date.getDay` numbers them. */
  const Sunday: nat := 0
  const Monday: nat := 1
  const Tuesday: nat := 2
  const Wednesday: nat := 3
  const Thursday: nat := 4
  const Friday: nat := 5
  const Saturday: nat := 6
  const Weekdays: seq<nat> := [Sunday, Monday, Tuesday, Wednesday, Thursday, Friday, Saturday]

  /** BUS_STOPS: the gazetteer, in the order the line serves the stops. */
  const BusStops: seq<string> := [
    "Apeldoorn, Station",
    "Zwolle, Station",
    "Apeldoorn, Marktplein",
    "Apeldoorn, Oranjepark/Regentesselaan",
    "Apeldoorn, Grote Kerk",
    "Apeldoorn, Bosweg",
    "Apeldoorn, Gedenknaald",
    "Apeldoorn, Van Haeftenkazerne",
    "Wenum, Wieselseweg",
    "Wenum, Papegaaiweg",
    "Wenum, De Haere",
    "Vaassen, Vaassen-Zuid",
    "Vaassen, Oosterhof",
    "Vaassen, Centrum",
    "Vaassen, Vaassen-Noord",
    "Emst, Handelsebrug",
    "Emst, Hezeplein",
    "Emst, Oranjeweg",
    "Epe, Klaarbeek",
    "Epe, Sint Jorisweg",
    "Epe, Diepenweg",
    "Epe, Centrum",
    "Epe, Politiebureau",
    "Heerde, Transferium Horsthoek",
    "Heerde, Eperweg",
    "Heerde, Brinklaan",
    "Heerde, Molenkampweg",
    "Heerde, Zwolseweg",
    "Heerde, Dreefseweg/Isala",
    "Wapenveld, Nachtegaalweg",
    "Wapenveld, Molenweg",
    "Wapenveld, Parkweg",
    "Wapenveld, Ir R.R. v/d Zeelaan",
    "Hattem, Pompstation",
    "Hattem, Zuid",
    "Hattem, Centrum",
    "Hattem, Noord",
    "Hattem, IJsselbrug",
    "Zwolle, Het Engelse Werk",
    "Zwolle, Katwolderplein/Centrum",
    "Zwolle, Oranje Nassaulaan",
    "Zwolle, Koningin Wilhelminastraat"
  ]

  /** Positions of the four entries whose name holds a `/`. */
  const SlashedStops: set<nat> := {3, 28, 32, 39}

  lemma BusStopsCount()
    ensures |BusStops| == 42
  {
  }

  lemma DirectionsDistinctLowerCase()
    ensures Directions == ["zwolle", "apeldoorn"] && Zwolle != Apeldoorn
    ensures Lower(Zwolle) == Zwolle && Lower(Apeldoorn) == Apeldoorn
  {
  }

  lemma WeekdaysNumbering()
    ensures forall d :: 0 <= d < |Weekdays| ==> Weekdays[d] == d
    ensures |Weekdays| == 7 && Weekdays[0] == Sunday && Weekdays[6] == Saturday
  {
  }

  predicate IsLetter(c: char) {
    'a' <= c <= 'z' || 'A' <= c <= 'Z'
  }

  /** A non-empty name that starts and ends with a letter, so `trim` leaves it as it is. */
  predicate LetterEnds(s: string) {
    |s| > 0 && IsLetter(s[0]) && IsLetter(s[|s| - 1])
  }

  /** Length, first and twelfth character: enough to tell any two entries apart. */
  function Key(s: string): (int, char, char)
    requires |s| >= 12
  {
    (|s|, s[0], s[11])
  }

  /** The position of the entry with the given key; -1 when no entry has it. */
  function IndexByKey(k: (int, char, char)): int {
    if k == (18, 'A', 'S') then 0
    else if k == (15, 'Z', 't') then 1
    else if k == (21, 'A', 'M') then 2
    else if k == (36, 'A', 'O') then 3
    else if k == (21, 'A', 'G') then 4
    else if k == (17, 'A', 'B') then 5
    else if k == (22, 'A', 'G') then 6
    else if k == (29, 'A', 'V') then 7
    else if k == (18, 'W', 'e') then 8
    else if k == (18, 'W', 'g') then 9
    else if k == (15, 'W', 'a') then 10
    else if k == (21, 'V', 'a') then 11
    else if k == (18, 'V', 's') then 12
    else if k == (16, 'V', 'n') then 13
    else if k == (22, 'V', 'a') then 14
    else if k == (18, 'E', 'l') then 15
    else if k == (15, 'E', 'l') then 16
    else if k == (15, 'E', 'e') then 17
    else if k == (14, 'E', 'e') then 18
    else if k == (18, 'E', 'o') then 19
    else if k == (14, 'E', 'w') then 20
    else if k == (12, 'E', 'm') then 21
    else if k == (18, 'E', 'e') then 22
    else if k == (29, 'H', 'n') then 23
    else if k == (15, 'H', 'r') then 24
    else if k == (17, 'H', 'n') then 25
    else if k == (20, 'H', 'e') then 26
    else if k == (17, 'H', 'l') then 27
    else if k == (24, 'H', 'e') then 28
    else if k == (24, 'W', 'N') then 29
    else if k == (19, 'W', 'M') then 30
    else if k == (18, 'W', 'P') then 31
    else if k == (30, 'W', 'I') then 32
    else if k == (19, 'H', 'p') then 33
    else if k == (12, 'H', 'd') then 34
    else if k == (15, 'H', 't') then 35
    else if k == (13, 'H', 'r') then 36
    else if k == (18, 'H', 's') then 37
    else if k == (24, 'Z', ' ') then 38
    else if k == (30, 'Z', 'w') then 39
    else if k == (25, 'Z', 'n') then 40
    else if k == (33, 'Z', 'i') then 41
    else -1
  }

  /** Entry `i` of `xs` is at least twelve characters long and its key leads back to `i`. */
  predicate Keyed(xs: seq<string>, i: int)
    requires 0 <= i < |xs|
  {
    |xs[i]| >= 12 && IndexByKey(Key(xs[i])) == i
  }

  predicate AllKeyed(xs: seq<string>) {
    forall i :: 0 <= i < |xs| ==> Keyed(xs, i)
  }

  predicate Distinct(xs: seq<string>) {
    forall i, j :: 0 <= i < j < |xs| ==> xs[i] != xs[j]
  }

  /** A list whose entries all lead back to their own position through their keys has no repeats. */
  lemma DistinctByKeys(xs: seq<string>)
    requires AllKeyed(xs)
    ensures Distinct(xs)
  {
    forall i, j | 0 <= i < j < |xs| ensures xs[i] != xs[j] {
      assert Keyed(xs, i) && Keyed(xs, j);
    }
  }

  // Proof scaffolding for BusStopsShape, not part of the model. Each of the fourteen lemmas below
  // checks three rows of the literal table: its keys and its end letters. One obligation over all
  // 42 rows, or over larger slices, is more than the solver can settle within its resource limit.
  // BusStopsShape and BusStopsDistinct combine the slices.

  lemma CheckedRows0To3()
    ensures forall i :: 0 <= i < 3 ==> Keyed(BusStops, i) && LetterEnds(BusStops[i])
  {
  }

  lemma CheckedRows3To6()
    ensures forall i :: 3 <= i < 6 ==> Keyed(BusStops, i) && LetterEnds(BusStops[i])
  {
  }

  lemma CheckedRows6To9()
    ensures forall i :: 6 <= i < 9 ==> Keyed(BusStops, i) && LetterEnds(BusStops[i])
  {
  }

  lemma CheckedRows9To12()
    ensures forall i :: 9 <= i < 12 ==> Keyed(BusStops, i) && LetterEnds(BusStops[i])
  {
  }

  lemma CheckedRows12To15()
    ensures forall i :: 12 <= i < 15 ==> Keyed(BusStops, i) && LetterEnds(BusStops[i])
  {
  }

  lemma CheckedRows15To18()
    ensures forall i :: 15 <= i < 18 ==> Keyed(BusStops, i) && LetterEnds(BusStops[i])
  {
  }

  lemma CheckedRows18To21()
    ensures forall i :: 18 <= i < 21 ==> Keyed(BusStops, i) && LetterEnds(BusStops[i])
  {
  }

  lemma CheckedRows21To24()
    ensures forall i :: 21 <= i < 24 ==> Keyed(BusStops, i) && LetterEnds(BusStops[i])
  {
  }

  lemma CheckedRows24To27()
    ensures forall i :: 24 <= i < 27 ==> Keyed(BusStops, i) && LetterEnds(BusStops[i])
  {
  }

  lemma CheckedRows27To30()
    ensures forall i :: 27 <= i < 30 ==> Keyed(BusStops, i) && LetterEnds(BusStops[i])
  {
  }

  lemma CheckedRows30To33()
    ensures forall i :: 30 <= i < 33 ==> Keyed(BusStops, i) && LetterEnds(BusStops[i])
  {
  }

  lemma CheckedRows33To36()
    ensures forall i :: 33 <= i < 36 ==> Keyed(BusStops, i) && LetterEnds(BusStops[i])
  {
  }

  lemma CheckedRows36To39()
    ensures forall i :: 36 <= i < 39 ==> Keyed(BusStops, i) && LetterEnds(BusStops[i])
  {
  }

  lemma CheckedRows39To42()
    ensures forall i :: 39 <= i < 42 ==> Keyed(BusStops, i) && LetterEnds(BusStops[i])
  {
  }

  /** Every entry is longer than the four characters a search needs, and starts and ends with a letter. */
  lemma BusStopsShape()
    ensures |BusStops| == 42
    ensures AllKeyed(BusStops)
    ensures forall i :: 0 <= i < |BusStops| ==> |BusStops[i]| >= 4 && LetterEnds(BusStops[i])
  {
    CheckedRows0To3();
    CheckedRows3To6();
    CheckedRows6To9();
    CheckedRows9To12();
    CheckedRows12To15();
    CheckedRows15To18();
    CheckedRows18To21();
    CheckedRows21To24();
    CheckedRows24To27();
    CheckedRows27To30();
    CheckedRows30To33();
    CheckedRows33To36();
    CheckedRows36To39();
    CheckedRows39To42();
  }

  /** The 42 entries are pairwise distinct. */
  lemma BusStopsDistinct()
    ensures Distinct(BusStops)
  {
    BusStopsShape();
    DistinctByKeys(BusStops);
  }

  /** The four entries with a `/`, and where it stands. */
  lemma SlashedStopsSlash()
    ensures forall i :: i in SlashedStops ==> 0 <= i < |BusStops|
    ensures BusStops[3][21] == '/' && BusStops[28][18] == '/'
    ensures BusStops[32][20] == '/' && BusStops[39][22] == '/'
  {
  }

  /** The characters the gazetteer names are written with. */
  predicate IsNameChar(c: char) {
    IsLetter(c) || c == ' ' || c == ',' || c == '/' || c == '-' || c == '.'
  }

  /** A name written with letters, spaces and `,/-.` only. */
  predicate PlainName(s: string) {
    forall k :: 0 <= k < |s| ==> IsNameChar(s[k])
  }

  /** A plain name holds none of the characters the payload and guess codecs strip or split on. */
  lemma PlainNameMarkFree(s: string)
    requires PlainName(s)
    ensures '*' !in s && '#' !in s && '+' !in s && '!' !in s && '|' !in s
    ensures forall k :: 0 <= k < |s| ==> !IsLineTerminator(s[k])
  {
    forall c | c in s ensures IsNameChar(c) {
      var k :| 0 <= k < |s| && s[k] == c;
    }
  }

  // Proof scaffolding for BusStopsPlain, not part of the model. The solver reads each name
  // character by character. `PlainNamesXToY` does so for three names, passed as parameters that
  // equal their literals. `PlainRowsXToY` ties them to their rows of the table. BusStopsPlain
  // combines the fourteen slices, for the same resource reason as above.

  lemma PlainNames0To3(x: string, y: string, z: string)
    requires x == "Apeldoorn, Station" && y == "Zwolle, Station" && z == "Apeldoorn, Marktplein"
    ensures PlainName(x) && PlainName(y) && PlainName(z)
  {
  }

  lemma PlainRows0To3()
    ensures forall i :: 0 <= i < 3 ==> PlainName(BusStops[i])
  {
    PlainNames0To3(BusStops[0], BusStops[1], BusStops[2]);
  }

  lemma PlainNames3To6(x: string, y: string, z: string)
    requires x == "Apeldoorn, Oranjepark/Regentesselaan" && y == "Apeldoorn, Grote Kerk" && z == "Apeldoorn, Bosweg"
    ensures PlainName(x) && PlainName(y) && PlainName(z)
  {
  }

  lemma PlainRows3To6()
    ensures forall i :: 3 <= i < 6 ==> PlainName(BusStops[i])
  {
    PlainNames3To6(BusStops[3], BusStops[4], BusStops[5]);
  }

  lemma PlainNames6To9(x: string, y: string, z: string)
    requires x == "Apeldoorn, Gedenknaald" && y == "Apeldoorn, Van Haeftenkazerne" && z == "Wenum, Wieselseweg"
    ensures PlainName(x) && PlainName(y) && PlainName(z)
  {
  }

  lemma PlainRows6To9()
    ensures forall i :: 6 <= i < 9 ==> PlainName(BusStops[i])
  {
    PlainNames6To9(BusStops[6], BusStops[7], BusStops[8]);
  }

  lemma PlainNames9To12(x: string, y: string, z: string)
    requires x == "Wenum, Papegaaiweg" && y == "Wenum, De Haere" && z == "Vaassen, Vaassen-Zuid"
    ensures PlainName(x) && PlainName(y) && PlainName(z)
  {
  }

  lemma PlainRows9To12()
    ensures forall i :: 9 <= i < 12 ==> PlainName(BusStops[i])
  {
    PlainNames9To12(BusStops[9], BusStops[10], BusStops[11]);
  }

  lemma PlainNames12To15(x: string, y: string, z: string)
    requires x == "Vaassen, Oosterhof" && y == "Vaassen, Centrum" && z == "Vaassen, Vaassen-Noord"
    ensures PlainName(x) && PlainName(y) && PlainName(z)
  {
  }

  lemma PlainRows12To15()
    ensures forall i :: 12 <= i < 15 ==> PlainName(BusStops[i])
  {
    PlainNames12To15(BusStops[12], BusStops[13], BusStops[14]);
  }

  lemma PlainNames15To18(x: string, y: string, z: string)
    requires x == "Emst, Handelsebrug" && y == "Emst, Hezeplein" && z == "Emst, Oranjeweg"
    ensures PlainName(x) && PlainName(y) && PlainName(z)
  {
  }

  lemma PlainRows15To18()
    ensures forall i :: 15 <= i < 18 ==> PlainName(BusStops[i])
  {
    PlainNames15To18(BusStops[15], BusStops[16], BusStops[17]);
  }

  lemma PlainNames18To21(x: string, y: string, z: string)
    requires x == "Epe, Klaarbeek" && y == "Epe, Sint Jorisweg" && z == "Epe, Diepenweg"
    ensures PlainName(x) && PlainName(y) && PlainName(z)
  {
  }

  lemma PlainRows18To21()
    ensures forall i :: 18 <= i < 21 ==> PlainName(BusStops[i])
  {
    PlainNames18To21(BusStops[18], BusStops[19], BusStops[20]);
  }

  lemma PlainNames21To24(x: string, y: string, z: string)
    requires x == "Epe, Centrum" && y == "Epe, Politiebureau" && z == "Heerde, Transferium Horsthoek"
    ensures PlainName(x) && PlainName(y) && PlainName(z)
  {
  }

  lemma PlainRows21To24()
    ensures forall i :: 21 <= i < 24 ==> PlainName(BusStops[i])
  {
    PlainNames21To24(BusStops[21], BusStops[22], BusStops[23]);
  }

  lemma PlainNames24To27(x: string, y: string, z: string)
    requires x == "Heerde, Eperweg" && y == "Heerde, Brinklaan" && z == "Heerde, Molenkampweg"
    ensures PlainName(x) && PlainName(y) && PlainName(z)
  {
  }

  lemma PlainRows24To27()
    ensures forall i :: 24 <= i < 27 ==> PlainName(BusStops[i])
  {
    PlainNames24To27(BusStops[24], BusStops[25], BusStops[26]);
  }

  lemma PlainNames27To30(x: string, y: string, z: string)
    requires x == "Heerde, Zwolseweg" && y == "Heerde, Dreefseweg/Isala" && z == "Wapenveld, Nachtegaalweg"
    ensures PlainName(x) && PlainName(y) && PlainName(z)
  {
  }

  lemma PlainRows27To30()
    ensures forall i :: 27 <= i < 30 ==> PlainName(BusStops[i])
  {
    PlainNames27To30(BusStops[27], BusStops[28], BusStops[29]);
  }

  lemma PlainNames30To33(x: string, y: string, z: string)
    requires x == "Wapenveld, Molenweg" && y == "Wapenveld, Parkweg" && z == "Wapenveld, Ir R.R. v/d Zeelaan"
    ensures PlainName(x) && PlainName(y) && PlainName(z)
  {
  }

  lemma PlainRows30To33()
    ensures forall i :: 30 <= i < 33 ==> PlainName(BusStops[i])
  {
    PlainNames30To33(BusStops[30], BusStops[31], BusStops[32]);
  }

  lemma PlainNames33To36(x: string, y: string, z: string)
    requires x == "Hattem, Pompstation" && y == "Hattem, Zuid" && z == "Hattem, Centrum"
    ensures PlainName(x) && PlainName(y) && PlainName(z)
  {
  }

  lemma PlainRows33To36()
    ensures forall i :: 33 <= i < 36 ==> PlainName(BusStops[i])
  {
    PlainNames33To36(BusStops[33], BusStops[34], BusStops[35]);
  }

  lemma PlainNames36To39(x: string, y: string, z: string)
    requires x == "Hattem, Noord" && y == "Hattem, IJsselbrug" && z == "Zwolle, Het Engelse Werk"
    ensures PlainName(x) && PlainName(y) && PlainName(z)
  {
  }

  lemma PlainRows36To39()
    ensures forall i :: 36 <= i < 39 ==> PlainName(BusStops[i])
  {
    PlainNames36To39(BusStops[36], BusStops[37], BusStops[38]);
  }

  lemma PlainNames39To42(x: string, y: string, z: string)
    requires x == "Zwolle, Katwolderplein/Centrum" && y == "Zwolle, Oranje Nassaulaan" && z == "Zwolle, Koningin Wilhelminastraat"
    ensures PlainName(x) && PlainName(y) && PlainName(z)
  {
  }

  lemma PlainRows39To42()
    ensures forall i :: 39 <= i < 42 ==> PlainName(BusStops[i])
  {
    PlainNames39To42(BusStops[39], BusStops[40], BusStops[41]);
  }

  /** Every entry is a plain name. */
  lemma BusStopsPlain()
    ensures forall i :: 0 <= i < |BusStops| ==> PlainName(BusStops[i])
  {
    PlainRows0To3();
    PlainRows3To6();
    PlainRows6To9();
    PlainRows9To12();
    PlainRows12To15();
    PlainRows15To18();
    PlainRows18To21();
    PlainRows21To24();
    PlainRows24To27();
    PlainRows27To30();
    PlainRows30To33();
    PlainRows33To36();
    PlainRows36To39();
    PlainRows39To42();
    BusStopsCount();
  }

  /** Every entry is a plain name that starts and ends with a letter. */
  lemma BusStopsNames()
    ensures forall i :: 0 <= i < |BusStops| ==> PlainName(BusStops[i]) && LetterEnds(BusStops[i])
  {
    BusStopsShape();
    BusStopsPlain();
  }

  /** An entry of the gazetteer is a plain name that starts and ends with a letter. */
  lemma BusStopIsName(s: string)
    requires s in BusStops
    ensures PlainName(s) && LetterEnds(s)
  {
    BusStopsNames();
  }
}
