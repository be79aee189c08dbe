/**
 * utils/normalizeBusStop.js: a stop name is shown with its first `/` written as ` - `.
 */
module NormalizeBusStop {
  import opened Strings

  /** `normalizeBusStop`: the `/\//` test, then `replace('/', ' - ')`, which replaces the first `/` only. */
  function NormalizeBusStop(busStop: string): (r: string)
    ensures '/' !in busStop ==> r == busStop
    ensures '/' in busStop ==> |r| == |busStop| + 2
  {
    if '/' in busStop then ReplaceFirst(busStop, '/', " - ") else busStop
  }

  /** At most one `/` in the name. */
  predicate AtMostOneSlash(s: string) {
    forall i, j :: 0 <= i < |s| && 0 <= j < |s| && s[i] == '/' && s[j] == '/' ==> i == j
  }

  /** With at most one `/`, normalizing leaves no `/`, so normalizing twice is normalizing once. */
  lemma NormalizeIdempotent(s: string)
    requires AtMostOneSlash(s)
    ensures '/' !in NormalizeBusStop(s)
    ensures NormalizeBusStop(NormalizeBusStop(s)) == NormalizeBusStop(s)
  {
    if '/' in s {
      var i := IndexOf(s, '/');
      var r := s[..i] + " - " + s[i + 1..];
      assert NormalizeBusStop(s) == r;
      forall k | 0 <= k < |r| ensures r[k] != '/' {
        if k < i {
          assert r[k] == s[..i][k];
        } else if k >= i + 3 {
          assert r[k] == s[k - 2];
        }
      }
    }
  }

  /** The first `/` becomes ` - `; what comes before and after it is kept as it is. */
  lemma NormalizeAt(s: string, i: nat, before: string, after: string)
    requires i < |s| && s[i] == '/' && s[..i] == before && '/' !in before && s[i + 1..] == after
    ensures NormalizeBusStop(s) == before + " - " + after
  {
    IndexOfFirst(s, '/', i);
  }

  /** The documented example: `Zwolle/Apeldoorn` is shown as `Zwolle - Apeldoorn`. */
  lemma NormalizeExample()
    ensures NormalizeBusStop("Zwolle/Apeldoorn") == "Zwolle - Apeldoorn"
    ensures NormalizeBusStop("Zwolle") == "Zwolle"
  {
    var s := "Zwolle/Apeldoorn";
    assert "Zwolle" + " - " + "Apeldoorn" == "Zwolle - Apeldoorn";
    NormalizeAt(s, 6, "Zwolle", "Apeldoorn");
  }
}
