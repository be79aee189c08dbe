/**
 * utils/findStop.js: the Levenshtein table and the stop resolver that turns free text into
 * an entry of the gazetteer, trying case-sensitive membership, then a case-insensitive
 * search of the text inside every entry, then the nearest entry at edit distance 2 or less.
 */
module FindStop {
  import opened Wrappers
  import opened Strings
  import opened SeleniumTexts

  /** `Math.min` of three numbers. */
  function Min3(x: int, y: int, z: int): (m: int)
    ensures m <= x && m <= y && m <= z
    ensures m == x || m == y || m == z
  {
    if x <= y && x <= z then x else if y <= z then y else z
  }

  /**
   * The unit-cost edit distance between the prefixes `a[..i]` and `b[..j]`: deleting,
   * inserting or substituting one character costs 1, keeping an equal character costs 0.
   * This is the textbook recursive definition, with the three-way minimum in every case.
   */
  function Dist(a: string, b: string, i: nat, j: nat): nat
    requires i <= |a| && j <= |b|
    decreases i + j
  {
    if i == 0 then j
    else if j == 0 then i
    else Min3(Dist(a, b, i - 1, j - 1) + (if a[i - 1] == b[j - 1] then 0 else 1),
              Dist(a, b, i, j - 1) + 1,
              Dist(a, b, i - 1, j) + 1)
  }

  function EditDistance(a: string, b: string): (r: nat)
    ensures (if |a| <= |b| then |b| - |a| else |a| - |b|) <= r <= (if |a| <= |b| then |b| else |a|)
  {
    DistLowerBound(a, b, |a|, |b|);
    DistUpperBound(a, b, |a|, |b|);
    Dist(a, b, |a|, |b|)
  }

  /** Dropping the last character of the first string changes the distance by at most one. */
  lemma {:induction false} DistDropFirst(a: string, b: string, i: nat, j: nat)
    requires 1 <= i <= |a| && j <= |b|
    ensures Dist(a, b, i - 1, j) <= Dist(a, b, i, j) + 1
    decreases j
  {
    if j > 0 {
      DistDropFirst(a, b, i, j - 1);
    }
  }

  /** Dropping the last character of the second string changes the distance by at most one. */
  lemma {:induction false} DistDropSecond(a: string, b: string, i: nat, j: nat)
    requires i <= |a| && 1 <= j <= |b|
    ensures Dist(a, b, i, j - 1) <= Dist(a, b, i, j) + 1
    decreases i
  {
    if i > 0 {
      DistDropSecond(a, b, i - 1, j);
    }
  }

  /**
   * When the two last characters are equal, the distance is the diagonal one: the table may
   * copy the diagonal cell without taking the minimum.
   */
  lemma DiagonalShortcut(a: string, b: string, i: nat, j: nat)
    requires 1 <= i <= |a| && 1 <= j <= |b| && a[i - 1] == b[j - 1]
    ensures Dist(a, b, i, j) == Dist(a, b, i - 1, j - 1)
  {
    DistDropFirst(a, b, i, j - 1);
    DistDropSecond(a, b, i - 1, j);
  }

  /** The distance is at least the difference of the lengths. */
  lemma {:induction false} DistLowerBound(a: string, b: string, i: nat, j: nat)
    requires i <= |a| && j <= |b|
    ensures (if i <= j then j - i else i - j) <= Dist(a, b, i, j)
    decreases i + j
  {
    if i > 0 && j > 0 {
      DistLowerBound(a, b, i - 1, j - 1);
      DistLowerBound(a, b, i, j - 1);
      DistLowerBound(a, b, i - 1, j);
    }
  }

  /** The distance is at most the larger length. */
  lemma {:induction false} DistUpperBound(a: string, b: string, i: nat, j: nat)
    requires i <= |a| && j <= |b|
    ensures Dist(a, b, i, j) <= (if i <= j then j else i)
    decreases i + j
  {
    if i > 0 && j > 0 {
      DistUpperBound(a, b, i - 1, j - 1);
    }
  }

  /** Distance zero means equal prefixes. */
  lemma {:induction false} DistZero(a: string, b: string, i: nat, j: nat)
    requires i <= |a| && j <= |b|
    ensures Dist(a, b, i, j) == 0 <==> i == j && a[..i] == b[..j]
    decreases i + j
  {
    if i > 0 && j > 0 {
      DistZero(a, b, i - 1, j - 1);
      DistLowerBound(a, b, i, j - 1);
      DistLowerBound(a, b, i - 1, j);
      if i == j && a[..i] == b[..j] {
        assert a[..i - 1] == a[..i][..i - 1] && b[..j - 1] == b[..j][..j - 1];
        assert a[i - 1] == a[..i][i - 1] && b[j - 1] == b[..j][j - 1];
      }
      if Dist(a, b, i, j) == 0 {
        assert a[..i] == a[..i - 1] + [a[i - 1]] && b[..j] == b[..j - 1] + [b[j - 1]];
      }
    }
  }

  /** The distance does not depend on which string comes first. */
  lemma {:induction false} DistSymmetric(a: string, b: string, i: nat, j: nat)
    requires i <= |a| && j <= |b|
    ensures Dist(a, b, i, j) == Dist(b, a, j, i)
    decreases i + j
  {
    if i > 0 && j > 0 {
      DistSymmetric(a, b, i - 1, j - 1);
      DistSymmetric(a, b, i, j - 1);
      DistSymmetric(a, b, i - 1, j);
    }
  }

  /** The edit distance is a distance on strings: zero exactly on equal strings, symmetric, bounded. */
  lemma EditDistanceProperties(a: string, b: string)
    ensures EditDistance(a, b) == 0 <==> a == b
    ensures EditDistance(a, b) == EditDistance(b, a)
    ensures (if |a| <= |b| then |b| - |a| else |a| - |b|) <= EditDistance(a, b)
    ensures EditDistance(a, b) <= (if |a| <= |b| then |b| else |a|)
  {
    DistZero(a, b, |a|, |b|);
    assert a[..|a|] == a && b[..|b|] == b;
    DistSymmetric(a, b, |a|, |b|);
    DistLowerBound(a, b, |a|, |b|);
    DistUpperBound(a, b, |a|, |b|);
  }

  /** The first `rows` rows of the table hold the distances of the corresponding prefixes. */
  ghost predicate RowsFilled(matrix: array2<nat>, a: string, b: string, rows: nat)
    requires matrix.Length0 == |a| + 1 && matrix.Length1 == |b| + 1 && rows <= |a| + 1
    reads matrix
  {
    forall p, q {:trigger Dist(a, b, p, q)} :: 0 <= p < rows && 0 <= q <= |b| ==> matrix[p, q] == Dist(a, b, p, q)
  }

  /** The recurrence the table follows, with the diagonal shortcut for equal characters. */
  lemma CellRecurrence(a: string, b: string, i: nat, j: nat)
    requires 1 <= i <= |a| && 1 <= j <= |b|
    ensures Dist(a, b, i, j) ==
      if a[i - 1] == b[j - 1] then Dist(a, b, i - 1, j - 1)
      else Min3(Dist(a, b, i - 1, j - 1) + 1, Dist(a, b, i, j - 1) + 1, Dist(a, b, i - 1, j) + 1)
  {
    if a[i - 1] == b[j - 1] {
      DiagonalShortcut(a, b, i, j);
    }
  }

  /**
   * `levenshtein(a, b)`: fills the (|a|+1) x (|b|+1) table row by row, the first column with
   * `i` and the first row with `j`, and returns its last cell.
   */
  method Levenshtein(a: string, b: string) returns (d: nat)
    ensures d == EditDistance(a, b)
  {
    var matrix := new nat[|a| + 1, |b| + 1];
    for i := 0 to |a| + 1
      invariant forall p :: 0 <= p < i ==> matrix[p, 0] == p
    {
      matrix[i, 0] := i;
    }
    for j := 0 to |b| + 1
      invariant forall p :: 0 <= p <= |a| ==> matrix[p, 0] == p
      invariant forall q :: 0 <= q < j ==> matrix[0, q] == q
    {
      matrix[0, j] := j;
    }
    for i := 1 to |a| + 1
      invariant RowsFilled(matrix, a, b, i)
      invariant forall p :: i <= p <= |a| ==> matrix[p, 0] == p
    {
      for j := 1 to |b| + 1
        invariant RowsFilled(matrix, a, b, i)
        invariant forall p :: i <= p <= |a| ==> matrix[p, 0] == p
        invariant forall q {:trigger Dist(a, b, i, q)} :: 0 <= q < j ==> matrix[i, q] == Dist(a, b, i, q)
      {
        var diag, left, up := matrix[i - 1, j - 1], matrix[i, j - 1], matrix[i - 1, j];
        CellRecurrence(a, b, i, j);
        matrix[i, j] := if a[i - 1] == b[j - 1] then diag else Min3(diag + 1, left + 1, up + 1);
      }
    }
    d := matrix[|a|, |b|];
  }

  /** FindStopResponse: `{result: null}`, or an entry together with its `isExact` flag. */
  datatype Response = NotFound | Found(isExact: bool, stop: string)

  /** The characters that make a search text mean something else than itself as a pattern. */
  predicate IsRegexMeta(c: char) {
    c in "\\^$.|?*+()[]{}"
  }

  /**
   * The texts for which the model of the pattern step is exact: those the first two steps
   * settle, and those that a regular expression reads literally.
   */
  predicate PatternSafe(stops: seq<string>, searchStop: Option<string>) {
    match searchStop
    case None => true
    case Some(s) => |s| < 4 || s in stops || forall k :: 0 <= k < |s| ==> !IsRegexMeta(s[k])
  }

  /** `stop.match(new RegExp(text, 'gi'))` for a text without metacharacters: a case-insensitive search. */
  predicate MatchesIgnoringCase(text: string, stop: string) {
    Occurs(Lower(text), Lower(stop))
  }

  /** `BUS_STOPS.find(...)` from position `i` on: the first entry the text matches, if any. */
  function FirstMatchFrom(stops: seq<string>, text: string, i: nat): (r: Option<nat>)
    requires i <= |stops|
    ensures r.Some? ==> i <= r.value < |stops| && MatchesIgnoringCase(text, stops[r.value])
    ensures r.Some? ==> forall j :: i <= j < r.value ==> !MatchesIgnoringCase(text, stops[j])
    ensures r.None? <==> forall j :: i <= j < |stops| ==> !MatchesIgnoringCase(text, stops[j])
    decreases |stops| - i
  {
    if i == |stops| then None
    else if MatchesIgnoringCase(text, stops[i]) then Some(i)
    else FirstMatchFrom(stops, text, i + 1)
  }

  /** The distances the fuzzy step computes, entry by entry, from the lower-cased text. */
  function Distances(stops: seq<string>, query: string): (ds: seq<nat>)
    ensures |ds| == |stops|
  {
    if stops == [] then []
    else Distances(stops[..|stops| - 1], query) + [EditDistance(query, Lower(stops[|stops| - 1]))]
  }

  lemma {:induction false} DistancesAt(stops: seq<string>, query: string, j: nat)
    requires j < |stops|
    ensures Distances(stops, query)[j] == EditDistance(query, Lower(stops[j]))
  {
    var n := |stops| - 1;
    if j < n {
      DistancesAt(stops[..n], query, j);
    }
  }

  /**
   * The position and distance the `forEach` of the fuzzy step holds after seeing the
   * distances `ds`: an entry takes over only when it is at most 2 away and strictly closer
   * than the one held.
   */
  function Nearest(ds: seq<nat>): (r: Option<(nat, nat)>)
    ensures r.Some? ==> r.value.0 < |ds|
  {
    if ds == [] then None
    else
      var held := Nearest(ds[..|ds| - 1]);
      var d := ds[|ds| - 1];
      if d <= 2 && (held.None? || d < held.value.1) then Some((|ds| - 1, d)) else held
  }

  /** The fuzzy step finds nothing exactly when every entry is more than 2 away. */
  lemma {:induction false} NearestNone(ds: seq<nat>)
    ensures Nearest(ds).None? <==> forall j :: 0 <= j < |ds| ==> ds[j] > 2
  {
    if ds != [] {
      NearestNone(ds[..|ds| - 1]);
    }
  }

  /** The fuzzy step keeps the first entry at the smallest distance, provided it is at most 2. */
  lemma {:induction false} NearestIsFirstClosest(ds: seq<nat>)
    requires Nearest(ds).Some?
    ensures
      var (k, d) := Nearest(ds).value;
      && d == ds[k] && d <= 2
      && (forall j :: 0 <= j < |ds| ==> d <= ds[j])
      && (forall j :: 0 <= j < k ==> d < ds[j])
  {
    var init := ds[..|ds| - 1];
    var held := Nearest(init);
    var d := ds[|ds| - 1];
    if d <= 2 && (held.None? || d < held.value.1) {
      if held.None? {
        NearestNone(init);
      } else {
        NearestIsFirstClosest(init);
      }
    } else {
      NearestIsFirstClosest(init);
    }
  }

  /** Conversely, the first position at the smallest distance, if at most 2, is what the step holds. */
  lemma NearestIsUnique(ds: seq<nat>, k: nat)
    requires k < |ds| && ds[k] <= 2
    requires forall j :: 0 <= j < |ds| ==> ds[k] <= ds[j]
    requires forall j :: 0 <= j < k ==> ds[k] < ds[j]
    ensures Nearest(ds) == Some((k, ds[k]))
  {
    NearestNone(ds);
    NearestIsFirstClosest(ds);
    var (m, d) := Nearest(ds).value;
    if m < k {
      assert false;
    } else if k < m {
      assert false;
    }
  }

  /** The suggestion the fuzzy step settles on, as an entry. */
  function Suggestion(stops: seq<string>, text: string): Option<string> {
    match Nearest(Distances(stops, Lower(text)))
    case None => None
    case Some((k, _)) => Some(stops[k])
  }

  /** The three steps of `findStop`, in order. */
  function Resolve(stops: seq<string>, searchStop: Option<string>): (r: Response)
    requires PatternSafe(stops, searchStop)
    ensures r.Found? ==> searchStop.Some? && |searchStop.value| >= 4
    ensures r.Found? && r.isExact <==> searchStop.Some? && |searchStop.value| >= 4 && searchStop.value in stops
  {
    match searchStop
    case None => NotFound
    case Some(s) =>
      if |s| < 4 then NotFound
      else if s in stops then Found(true, s)
      else match FirstMatchFrom(stops, s, 0)
        case Some(k) => Found(false, stops[k])
        case None => match Suggestion(stops, s)
          case Some(stop) => Found(false, stop)
          case None => NotFound
  }

  /**
   * The fuzzy step: one `levenshtein` call per entry, in gazetteer order, with `minDistance`
   * starting at infinity (here `None`).
   */
  method FuzzySuggestion(stops: seq<string>, text: string) returns (suggestion: Option<string>)
    ensures suggestion == Suggestion(stops, text)
  {
    var query := Lower(text);
    suggestion := None;
    var minDistance: Option<nat> := None;
    ghost var ds: seq<nat> := [];
    for i := 0 to |stops|
      invariant ds == Distances(stops[..i], query)
      invariant Nearest(ds).None? ==> suggestion.None? && minDistance.None?
      invariant Nearest(ds).Some? ==>
        suggestion == Some(stops[Nearest(ds).value.0]) && minDistance == Some(Nearest(ds).value.1)
    {
      var dist := Levenshtein(query, Lower(stops[i]));
      assert stops[..i + 1][..i] == stops[..i];
      ds := ds + [dist];
      assert ds[..i] == ds[..|ds| - 1];
      if (minDistance.None? || dist < minDistance.value) && dist <= 2 {
        minDistance := Some(dist);
        suggestion := Some(stops[i]);
      }
    }
    assert stops[..|stops|] == stops;
  }

  /** `findStop(searchStop)`; `None` stands for a missing text. */
  method FindStop(stops: seq<string>, searchStop: Option<string>) returns (r: Response)
    requires PatternSafe(stops, searchStop)
    ensures r == Resolve(stops, searchStop)
  {
    if searchStop.None? || |searchStop.value| < 4 {
      return NotFound;
    }
    var s := searchStop.value;
    if s in stops {
      return Found(true, s);
    }
    var first := FirstMatchFrom(stops, s, 0);
    if first.Some? {
      return Found(false, stops[first.value]);
    }
    var suggestion := FuzzySuggestion(stops, s);
    if suggestion.Some? {
      r := Found(false, suggestion.value);
    } else {
      r := NotFound;
    }
  }

  /** The text matches no entry of the gazetteer. */
  predicate MatchesNone(stops: seq<string>, s: string) {
    forall k :: 0 <= k < |stops| ==> !MatchesIgnoringCase(s, stops[k])
  }

  /** Every distance is more than 2. */
  predicate AllTooFar(ds: seq<nat>) {
    forall k :: 0 <= k < |ds| ==> ds[k] > 2
  }

  /**
   * Nothing comes back for a missing or short text; a stop that comes back is an entry, and it
   * is flagged exact exactly when it is the text itself.
   */
  lemma ResolveAnswers(stops: seq<string>, searchStop: Option<string>)
    requires PatternSafe(stops, searchStop)
    ensures searchStop.None? || |searchStop.value| < 4 ==> Resolve(stops, searchStop) == NotFound
    ensures Resolve(stops, searchStop).Found? ==> Resolve(stops, searchStop).stop in stops
    ensures Resolve(stops, searchStop).Found? ==>
      (Resolve(stops, searchStop).isExact <==> Resolve(stops, searchStop).stop == searchStop.value)
  {
    if searchStop.Some? && |searchStop.value| >= 4 && searchStop.value !in stops
       && FirstMatchFrom(stops, searchStop.value, 0).None?
    {
      var ds := Distances(stops, Lower(searchStop.value));
      if Nearest(ds).Some? {
        var k := Nearest(ds).value.0;
        assert Resolve(stops, searchStop) == Found(false, stops[k]);
      }
    }
  }

  /**
   * A stop found is never the empty text, which `findStop` would treat as falsy and answer with
   * `null`: an entry that matches holds the text, and one kept by the fuzzy step is at most two
   * edits from a text of four or more characters. So `Resolve` needs no assumption on the entries.
   */
  lemma FoundStopNotEmpty(stops: seq<string>, searchStop: Option<string>)
    requires PatternSafe(stops, searchStop)
    ensures Resolve(stops, searchStop).Found? ==> Resolve(stops, searchStop).stop != ""
  {
    if searchStop.Some? && |searchStop.value| >= 4 && searchStop.value !in stops {
      var s := searchStop.value;
      match FirstMatchFrom(stops, s, 0)
      case Some(k) =>
        var i :| 0 <= i <= |Lower(stops[k])| - |Lower(s)| && OccursAt(Lower(s), Lower(stops[k]), i);
      case None =>
        var ds := Distances(stops, Lower(s));
        if Nearest(ds).Some? {
          NearestIsFirstClosest(ds);
          var k := Nearest(ds).value.0;
          DistancesAt(stops, Lower(s), k);
        }
    }
  }

  /** A text that is no entry but matches some entry gets the first entry it matches. */
  lemma ResolvePatternStep(stops: seq<string>, s: string, k: nat)
    requires PatternSafe(stops, Some(s)) && |s| >= 4 && s !in stops
    requires k < |stops| && MatchesIgnoringCase(s, stops[k])
    requires forall j :: 0 <= j < k ==> !MatchesIgnoringCase(s, stops[j])
    ensures Resolve(stops, Some(s)) == Found(false, stops[k])
  {
    var first := FirstMatchFrom(stops, s, 0);
    assert first.Some?;
    if first.value < k {
      assert false;
    } else if first.value > k {
      assert false;
    }
  }

  /**
   * A text that is no entry and matches none gets the first entry at the smallest distance
   * (`ds`, the distances from the lower-cased text), when that distance is at most 2.
   */
  lemma ResolveFuzzyStep(stops: seq<string>, s: string, k: nat)
    requires PatternSafe(stops, Some(s)) && |s| >= 4 && s !in stops
    requires MatchesNone(stops, s)
    requires var ds := Distances(stops, Lower(s));
      && k < |ds| && ds[k] <= 2
      && (forall j :: 0 <= j < |ds| ==> ds[k] <= ds[j])
      && (forall j :: 0 <= j < k ==> ds[k] < ds[j])
    ensures Resolve(stops, Some(s)) == Found(false, stops[k])
  {
    NearestIsUnique(Distances(stops, Lower(s)), k);
    assert FirstMatchFrom(stops, s, 0).None?;
  }

  /** The nothing-found answer, both ways: a short text, or one that no step can place. */
  lemma NotFoundExactly(stops: seq<string>, s: string)
    requires PatternSafe(stops, Some(s))
    ensures Resolve(stops, Some(s)) == NotFound <==>
      |s| < 4 || (s !in stops && MatchesNone(stops, s) && AllTooFar(Distances(stops, Lower(s))))
  {
    var ds := Distances(stops, Lower(s));
    NearestNone(ds);
    assert FirstMatchFrom(stops, s, 0).None? == MatchesNone(stops, s);
    assert Suggestion(stops, s).None? == AllTooFar(ds);
  }

  /** Every entry of a gazetteer whose entries have at least four characters is an exact hit. */
  lemma EveryLongEntryIsExact(stops: seq<string>)
    requires forall k :: 0 <= k < |stops| ==> |stops[k]| >= 4
    ensures forall k :: 0 <= k < |stops| ==>
      PatternSafe(stops, Some(stops[k])) && Resolve(stops, Some(stops[k])) == Found(true, stops[k])
  {
  }

  /** Every entry of BUS_STOPS, typed in as it is written, is an exact hit. */
  lemma EveryBusStopIsExact()
    ensures forall k :: 0 <= k < |BusStops| ==>
      PatternSafe(BusStops, Some(BusStops[k])) && Resolve(BusStops, Some(BusStops[k])) == Found(true, BusStops[k])
  {
    BusStopsShape();
    EveryLongEntryIsExact(BusStops);
  }

  /** An entry of BUS_STOPS, typed in as it is written, is an exact hit. */
  lemma BusStopIsExact(s: string)
    requires s in BusStops
    ensures PatternSafe(BusStops, Some(s)) && Resolve(BusStops, Some(s)) == Found(true, s)
  {
    EveryBusStopIsExact();
  }
}
