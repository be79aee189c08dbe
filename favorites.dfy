/**
 * utils/favorites.js: inline-keyboard layouts. A list is cut into rows of a fixed width, and a
 * stop becomes a button whose callback payload wraps the stop name in `#` or `##`.
 */
module Favorites {
  import opened Strings
  import SeleniumTexts

  function Min(a: int, b: int): int {
    if a <= b then a else b
  }

  /** `arr.slice(i, j)` for `0 <= i`, `i <= j`: the end is clamped to the length. */
  function Slice<T>(arr: seq<T>, i: nat, j: nat): seq<T>
    requires i <= j
  {
    if i >= |arr| then [] else arr[i..Min(j, |arr|)]
  }

  /** The rows `arraySlicer(arr, k)` builds: consecutive pieces of `k`, the last one possibly shorter. */
  function Chunks<T>(arr: seq<T>, k: nat): seq<seq<T>>
    requires k >= 1
    decreases |arr|
  {
    if arr == [] then [] else [arr[..Min(k, |arr|)]] + Chunks(arr[Min(k, |arr|)..], k)
  }

  /** One step of the loop: the piece at `i` followed by the rows of the rest. */
  lemma ChunksFrom<T>(arr: seq<T>, k: nat, i: nat)
    requires k >= 1 && i < |arr|
    ensures Chunks(arr[i..], k) == [Slice(arr, i, i + k)] + Chunks(arr[Min(i + k, |arr|)..], k)
  {
    assert arr[i..][..Min(k, |arr| - i)] == arr[i..Min(i + k, |arr|)];
    assert arr[i..][Min(k, |arr| - i)..] == arr[Min(i + k, |arr|)..];
  }

  /**
   * `arraySlicer`: walks the list `k` at a time and pushes each slice. Every caller passes the
   * slice size, so the default of 2 is not modelled; with a slice size of 0 the source loops
   * forever on a non-empty list, which the requirement `slice >= 1` excludes.
   */
  method ArraySlicer<T>(arr: seq<T>, slice: nat) returns (result: seq<seq<T>>)
    requires slice >= 1
    ensures result == Chunks(arr, slice)
  {
    result := [];
    var i: nat := 0;
    while i < |arr|
      invariant result + Chunks(arr[Min(i, |arr|)..], slice) == Chunks(arr, slice)
      decreases |arr| - i
    {
      ChunksFrom(arr, slice, i);
      result := result + [Slice(arr, i, i + slice)];
      i := i + slice;
    }
    assert arr[Min(i, |arr|)..] == [];
  }

  /** The rows, read one after the other, are the list itself. */
  lemma {:induction false} FlattenChunks<T>(arr: seq<T>, k: nat)
    requires k >= 1
    ensures Flatten(Chunks(arr, k)) == arr
    decreases |arr|
  {
    if arr != [] {
      var n := Min(k, |arr|);
      FlattenCons(arr[..n], Chunks(arr[n..], k));
      FlattenChunks(arr[n..], k);
      assert arr[..n] + arr[n..] == arr;
    }
  }

  lemma MulAtLeast(d: int, k: int)
    requires d >= 1 && k >= 1
    ensures d * k >= k
  {
    assert d * k == (d - 1) * k + k;
  }

  /** Quotient and remainder are the only ones with `a == q * k + r` and `0 <= r < k`. */
  lemma DivUnique(a: int, k: int, q: int, r: int)
    requires k >= 1 && 0 <= r < k && a == q * k + r
    ensures a / k == q && a % k == r
  {
    var q', r' := a / k, a % k;
    assert a == q' * k + r';
    if q' > q {
      assert (q' - q) * k == r - r';
      MulAtLeast(q' - q, k);
    } else if q' < q {
      assert (q - q') * k == r' - r;
      MulAtLeast(q - q', k);
    }
  }

  lemma DivStep(x: nat, k: nat)
    requires k >= 1
    ensures (k + x) / k == 1 + x / k && (k + x) % k == x % k
  {
    assert k + x == (1 + x / k) * k + x % k;
    DivUnique(k + x, k, 1 + x / k, x % k);
  }

  /** There are as many rows as `k` goes into the length, rounded up. */
  lemma {:induction false} ChunkCount<T>(arr: seq<T>, k: nat)
    requires k >= 1
    ensures |Chunks(arr, k)| == (|arr| + k - 1) / k
    decreases |arr|
  {
    if arr != [] {
      var n := Min(k, |arr|);
      ChunkCount(arr[n..], k);
      if n == k {
        DivStep(|arr[n..]| + k - 1, k);
      } else {
        DivUnique(|arr| + k - 1, k, 1, |arr| - 1);
      }
    }
  }

  /** Every row holds between one and `k` elements, and every row but the last exactly `k`. */
  lemma {:induction false} ChunkSizes<T>(arr: seq<T>, k: nat)
    requires k >= 1
    ensures forall r :: 0 <= r < |Chunks(arr, k)| ==> 1 <= |Chunks(arr, k)[r]| <= k
    ensures forall r :: 0 <= r < |Chunks(arr, k)| - 1 ==> |Chunks(arr, k)[r]| == k
    decreases |arr|
  {
    if arr != [] {
      var n := Min(k, |arr|);
      ChunkSizes(arr[n..], k);
      assert n < k ==> arr[n..] == [];
    }
  }

  /** Every row holds exactly `k` elements. */
  predicate FullRows<T>(rows: seq<seq<T>>, k: nat) {
    forall r :: 0 <= r < |rows| ==> |rows[r]| == k
  }

  /** When `k` divides the length, every row is full. */
  lemma {:induction false} ChunksFull<T>(arr: seq<T>, k: nat)
    requires k >= 1 && |arr| % k == 0
    ensures FullRows(Chunks(arr, k), k)
    decreases |arr|
  {
    if arr != [] {
      if |arr| < k {
        DivUnique(|arr|, k, 0, |arr|);
      }
      DivStep(|arr| - k, k);
      ChunksFull(arr[k..], k);
    }
  }

  /** An inline keyboard button: the label shown and the payload sent back when pressed. */
  datatype Button = Button(text: string, callbackData: string)

  /** One button per stop, labelled with the stop, whose payload is the stop between two `mark`s. */
  function Buttons(stops: seq<string>, mark: string): (r: seq<Button>)
    ensures |r| == |stops|
    ensures forall i :: 0 <= i < |stops| ==> r[i] == Button(stops[i], mark + stops[i] + mark)
  {
    if stops == [] then [] else [Button(stops[0], mark + stops[0] + mark)] + Buttons(stops[1..], mark)
  }

  /** `getAllStopsBtnList` over a list of stops: `#stop#` buttons in rows of three. */
  function StopsBtnList(stops: seq<string>): seq<seq<Button>> {
    Chunks(Buttons(stops, "#"), 3)
  }

  /** `getAllStopsBtnList`: every gazetteer stop as a `#stop#` button, in rows of three. */
  function AllStopsBtnList(): seq<seq<Button>> {
    StopsBtnList(SeleniumTexts.BusStops)
  }

  /** `getFavoritesBtnList`: nothing for no favourites, else `##stop##` buttons in rows of three, or two for fewer than three. */
  function FavoritesBtnList(stops: seq<string>): seq<seq<Button>> {
    if |stops| == 0 then [] else Chunks(Buttons(stops, "##"), if |stops| >= 3 then 3 else 2)
  }

  /**
   * The rows of a button list, read in order, give back one button per stop with the given payload;
   * every row is full but the last, which holds at least one button.
   */
  lemma ButtonRows(stops: seq<string>, mark: string, k: nat)
    requires k >= 1
    ensures Flatten(Chunks(Buttons(stops, mark), k)) == Buttons(stops, mark)
    ensures forall r :: 0 <= r < |Chunks(Buttons(stops, mark), k)| ==> 1 <= |Chunks(Buttons(stops, mark), k)[r]| <= k
    ensures forall r :: 0 <= r < |Chunks(Buttons(stops, mark), k)| - 1 ==> |Chunks(Buttons(stops, mark), k)[r]| == k
  {
    FlattenChunks(Buttons(stops, mark), k);
    ChunkSizes(Buttons(stops, mark), k);
  }

  /** A list of stops whose length is a multiple of three gives full rows of three `#stop#` buttons, in order. */
  lemma StopsBtnListShape(stops: seq<string>)
    requires |stops| % 3 == 0
    ensures Flatten(StopsBtnList(stops)) == Buttons(stops, "#")
    ensures |StopsBtnList(stops)| == |stops| / 3
    ensures FullRows(StopsBtnList(stops), 3)
  {
    FlattenChunks(Buttons(stops, "#"), 3);
    ChunkCount(Buttons(stops, "#"), 3);
    ChunksFull(Buttons(stops, "#"), 3);
  }

  /**
   * The all-stops keyboard (`AllStopsBtnList`, which is `StopsBtnList` of the gazetteer) holds
   * every gazetteer stop in order as a `#stop#` button, in 14 full rows of three.
   */
  lemma AllStopsBtnListShape(stops: seq<string>)
    requires stops == SeleniumTexts.BusStops
    ensures |StopsBtnList(stops)| == 14 && FullRows(StopsBtnList(stops), 3)
    ensures Flatten(StopsBtnList(stops)) == Buttons(stops, "#")
  {
    SeleniumTexts.BusStopsCount();
    StopsBtnListShape(stops);
  }

  /**
   * The favourites keyboard is empty for no favourites; otherwise it holds every favourite, in
   * order, as a `##stop##` button, in rows of three, or of two for fewer than three; only the
   * last row may be shorter.
   */
  lemma FavoritesBtnListShape(stops: seq<string>)
    ensures stops == [] <==> FavoritesBtnList(stops) == []
    ensures stops != [] ==> Flatten(FavoritesBtnList(stops)) == Buttons(stops, "##")
    ensures forall r :: 0 <= r < |FavoritesBtnList(stops)| ==>
      1 <= |FavoritesBtnList(stops)[r]| <= (if |stops| >= 3 then 3 else 2)
    ensures forall r :: 0 <= r < |FavoritesBtnList(stops)| - 1 ==>
      |FavoritesBtnList(stops)[r]| == (if |stops| >= 3 then 3 else 2)
  {
    if stops != [] {
      var k := if |stops| >= 3 then 3 else 2;
      ButtonRows(stops, "##", k);
    }
  }
}
