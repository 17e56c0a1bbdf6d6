/**
 * The in-memory algorithms behind the flexbox ordering game's card row:
 * the Fisher-Yates shuffle of a copy, the element-wise array comparison,
 * the choice of the card a dragged card is dropped in front of, and the
 * reinsertion of the dragged card.
 */
module CardRow {
  import opened Optional

  // ---------------------------------------------------------------------------
  // Shuffle: `Math.random` is replaced by the indices it would have produced.
  // ---------------------------------------------------------------------------

  /**
   * `picks` holds the index drawn in each pass of a Fisher-Yates shuffle of
   * `n` elements: pass `p` swaps position `n - 1 - p` with `picks[p]`, a
   * position in `[0, n - 1 - p]`, as `Math.floor(Math.random() * (i + 1))`
   * yields for `i = n - 1 - p`.
   */
  predicate ValidPicks(n: nat, picks: seq<nat>)
  {
    |picks| == (if n == 0 then 0 else n - 1)
    && forall p :: 0 <= p < |picks| ==> picks[p] <= n - 1 - p
  }

  /** `[a[i], a[j]] = [a[j], a[i]]`. */
  function Swap<T>(s: seq<T>, i: nat, j: nat): (r: seq<T>)
    requires i < |s| && j < |s|
    ensures |r| == |s|
  {
    s[i := s[j]][j := s[i]]
  }

  /** The passes for positions `i`, `i - 1`, ..., `1`, drawing from `picks` in order. */
  function Passes<T>(s: seq<T>, i: nat, picks: seq<nat>): (r: seq<T>)
    requires i == 0 || i < |s|
    requires |picks| == i && forall p :: 0 <= p < i ==> picks[p] <= i - p
    ensures |r| == |s|
    decreases i
  {
    if i == 0 then s else Passes(Swap(s, i, picks[0]), i - 1, picks[1..])
  }

  /** The arrangement the shuffle produces from `s` with the drawn indices `picks`. */
  function Shuffled<T>(s: seq<T>, picks: seq<nat>): (r: seq<T>)
    requires ValidPicks(|s|, picks)
    ensures |r| == |s|
  {
    Passes(s, if |s| == 0 then 0 else |s| - 1, picks)
  }

  /** Swapping position `i` with an earlier or equal position `j` keeps the elements. */
  lemma SwapPermutes<T>(s: seq<T>, i: nat, j: nat)
    requires j <= i < |s|
    ensures multiset(Swap(s, i, j)) == multiset(s)
  {
    var t1 := s[i := s[j]];
    assert multiset(t1) == multiset(s) - multiset{s[i]} + multiset{s[j]};
    assert t1[j] == s[j];
    assert multiset(t1[j := s[i]]) == multiset(t1) - multiset{s[j]} + multiset{s[i]};
  }

  lemma {:induction false} PassesPermute<T>(s: seq<T>, i: nat, picks: seq<nat>)
    requires i == 0 || i < |s|
    requires |picks| == i && forall p :: 0 <= p < i ==> picks[p] <= i - p
    ensures |Passes(s, i, picks)| == |s|
    ensures multiset(Passes(s, i, picks)) == multiset(s)
    decreases i
  {
    if i != 0 {
      var t := Swap(s, i, picks[0]);
      SwapPermutes(s, i, picks[0]);
      PassesPermute(t, i - 1, picks[1..]);
    }
  }

  /** Every shuffle is a permutation of its input. */
  lemma ShuffledPermutes<T>(s: seq<T>, picks: seq<nat>)
    requires ValidPicks(|s|, picks)
    ensures |Shuffled(s, picks)| == |s|
    ensures multiset(Shuffled(s, picks)) == multiset(s)
  {
    PassesPermute(s, if |s| == 0 then 0 else |s| - 1, picks);
  }

  /**
   * Shuffles a copy of `arr` in place, swapping from the last position down
   * to position 1. The input is a value and stays as it was.
   */
  method Shuffle<T>(arr: seq<T>, picks: seq<nat>) returns (r: seq<T>)
    requires ValidPicks(|arr|, picks)
    ensures r == Shuffled(arr, picks)
    ensures multiset(r) == multiset(arr)
  {
    var n := |arr|;
    var a := new T[n](k requires 0 <= k < n => arr[k]);
    var i := n - 1;
    assert a[..] == arr && picks[n - 1 - i..] == picks;
    while i > 0
      invariant -1 <= i < n
      invariant n > 0 ==> 0 <= i
      invariant n > 0 ==> Passes(a[..], i, picks[n - 1 - i..]) == Shuffled(arr, picks)
    {
      var j := picks[n - 1 - i];
      assert picks[n - 1 - i..][0] == j && picks[n - 1 - i..][1..] == picks[n - 1 - (i - 1)..];
      a[i], a[j] := a[j], a[i];
      i := i - 1;
    }
    r := a[..];
    ShuffledPermutes(arr, picks);
  }

  // ---------------------------------------------------------------------------
  // Element-wise equality of two arrays.
  // ---------------------------------------------------------------------------

  /** Arrays are equal when their lengths agree and `===` holds position by position. */
  method ArraysEqual<T(==)>(a: seq<T>, b: seq<T>) returns (eq: bool)
    ensures eq <==> |a| == |b| && forall i :: 0 <= i < |a| ==> a[i] == b[i]
    ensures eq <==> a == b
  {
    if |a| != |b| {
      return false;
    }
    for i := 0 to |a|
      invariant forall k :: 0 <= k < i ==> a[k] == b[k]
    {
      if a[i] != b[i] {
        return false;
      }
    }
    return true;
  }

  // ---------------------------------------------------------------------------
  // Drag target: the card the dragged card is put in front of.
  // ---------------------------------------------------------------------------

  /** A card that is not being dragged, with the horizontal midpoint of its box. */
  datatype Placed = Placed(id: string, mid: real)

  /**
   * `r` is the index of the card the dragged card goes in front of, for a
   * pointer at `x`: `None` exactly when no midpoint lies strictly right of
   * `x`; otherwise a card strictly right of `x` whose midpoint is the least
   * of those, and the earliest such card on equal midpoints.
   */
  predicate IsDragAfter(cands: seq<Placed>, x: real, r: Option<nat>)
  {
    match r
    case None => forall i :: 0 <= i < |cands| ==> cands[i].mid <= x
    case Some(k) =>
      && k < |cands|
      && cands[k].mid > x
      && (forall i :: 0 <= i < |cands| && cands[i].mid > x ==> cands[k].mid <= cands[i].mid)
      && (forall i :: 0 <= i < k && cands[i].mid > x ==> cands[k].mid < cands[i].mid)
  }

  /** An independent reference: the nearest card right of `x`, found scanning from the right. */
  function NearestRight(cands: seq<Placed>, x: real): (r: Option<nat>)
    ensures r.Some? ==> r.value < |cands|
  {
    if cands == [] then None
    else
      var rest := NearestRight(cands[1..], x);
      if cands[0].mid > x && (rest.None? || cands[0].mid <= cands[rest.value + 1].mid) then Some(0)
      else if rest.None? then None
      else Some(rest.value + 1)
  }

  lemma {:induction false} NearestRightIsDragAfter(cands: seq<Placed>, x: real)
    ensures IsDragAfter(cands, x, NearestRight(cands, x))
  {
    if cands != [] {
      NearestRightIsDragAfter(cands[1..], x);
      var rest := NearestRight(cands[1..], x);
      forall i | 1 <= i < |cands|
        ensures cands[i] == cands[1..][i - 1]
      {
      }
    }
  }

  /** For one pointer position and one layout there is only one drag target. */
  lemma DragAfterUnique(cands: seq<Placed>, x: real, r1: Option<nat>, r2: Option<nat>)
    requires IsDragAfter(cands, x, r1) && IsDragAfter(cands, x, r2)
    ensures r1 == r2
  {
  }

  /**
   * Scans the cards in order, keeping the one with the largest negative
   * offset `x - mid` seen so far; a later card with an equal offset does not
   * replace it. `None` stands for the initial offset of negative infinity.
   */
  method GetDragAfterElement(cands: seq<Placed>, x: real) returns (closest: Option<nat>)
    ensures IsDragAfter(cands, x, closest)
    ensures closest == NearestRight(cands, x)
  {
    closest := None;
    var closestOffset: real := 0.0;
    for i := 0 to |cands|
      invariant closest.None? ==> forall k :: 0 <= k < i ==> cands[k].mid <= x
      invariant closest.Some? ==> closest.value < i && cands[closest.value].mid > x
      invariant closest.Some? ==> closestOffset == x - cands[closest.value].mid
      invariant closest.Some? ==>
        forall k :: 0 <= k < i && cands[k].mid > x ==> cands[closest.value].mid <= cands[k].mid
      invariant closest.Some? ==>
        forall k :: 0 <= k < closest.value && cands[k].mid > x ==> cands[closest.value].mid < cands[k].mid
    {
      var offset := x - cands[i].mid;
      if offset < 0.0 && (closest.None? || offset > closestOffset) {
        closest := Some(i);
        closestOffset := offset;
      }
    }
    NearestRightIsDragAfter(cands, x);
    DragAfterUnique(cands, x, closest, NearestRight(cands, x));
  }

  // ---------------------------------------------------------------------------
  // Reinsertion of the dragged card.
  // ---------------------------------------------------------------------------

  /** `s` with every occurrence of `d` taken out. */
  function Without(s: seq<string>, d: string): (r: seq<string>)
    ensures d !in r
    ensures forall y :: y != d ==> (y in r <==> y in s)
  {
    if s == [] then [] else (if s[0] == d then [] else [s[0]]) + Without(s[1..], d)
  }

  lemma {:induction false} WithoutCounts(s: seq<string>, d: string)
    ensures multiset(Without(s, d)) == multiset(s)[d := 0]
  {
    if s != [] {
      WithoutCounts(s[1..], d);
      assert s == [s[0]] + s[1..];
    }
  }

  lemma {:induction false} WithoutAppend(a: seq<string>, b: seq<string>, d: string)
    ensures Without(a + b, d) == Without(a, d) + Without(b, d)
  {
    if a != [] {
      WithoutAppend(a[1..], b, d);
      assert (a + b)[1..] == a[1..] + b;
    } else {
      assert a + b == b;
    }
  }

  lemma {:induction false} WithoutAbsent(s: seq<string>, d: string)
    requires d !in s
    ensures Without(s, d) == s
  {
    if s != [] {
      WithoutAbsent(s[1..], d);
      assert s == [s[0]] + s[1..];
    }
  }

  /** The position of the first occurrence of `t`. */
  function IndexOf(s: seq<string>, t: string): (r: nat)
    requires t in s
    ensures r < |s| && s[r] == t && t !in s[..r]
  {
    if s[0] == t then 0
    else
      var r := IndexOf(s[1..], t);
      assert s[..r + 1] == [s[0]] + s[1..][..r];
      r + 1
  }

  /**
   * The row after `appendChild(d)` (target `None`) or `insertBefore(d, t)`:
   * `d` leaves its place and goes to the end or just in front of `t`.
   */
  function Reinsert(s: seq<string>, d: string, target: Option<string>): (r: seq<string>)
    requires target.Some? ==> target.value in s && target.value != d
    ensures d in r && |r| == |Without(s, d)| + 1
  {
    var w := Without(s, d);
    match target
    case None => w + [d]
    case Some(t) => var k := IndexOf(w, t); w[..k] + [d] + w[k..]
  }

  /** Taking `d` out again undoes putting it in at position `k` of a row without it. */
  lemma WithoutUndoesInsert(w: seq<string>, d: string, k: nat)
    requires d !in w && k <= |w|
    ensures Without(w[..k] + [d] + w[k..], d) == w
  {
    assert w == w[..k] + w[k..];
    WithoutAbsent(w[..k], d);
    WithoutAbsent(w[k..], d);
    WithoutAppend(w[..k] + [d], w[k..], d);
    WithoutAppend(w[..k], [d], d);
    assert Without([d], d) == [];
  }

  /** The other cards keep their relative order. */
  lemma ReinsertKeepsOthers(s: seq<string>, d: string, target: Option<string>)
    requires target.Some? ==> target.value in s && target.value != d
    ensures Without(Reinsert(s, d, target), d) == Without(s, d)
  {
    var w := Without(s, d);
    match target
    case None =>
      WithoutUndoesInsert(w, d, |w|);
      assert w[..|w|] + [d] + w[|w|..] == w + [d];
    case Some(t) =>
      WithoutUndoesInsert(w, d, IndexOf(w, t));
  }

  lemma InsertAddsOne(w: seq<string>, d: string, k: nat)
    requires k <= |w|
    ensures multiset(w[..k] + [d] + w[k..]) == multiset(w) + multiset{d}
  {
    assert w == w[..k] + w[k..];
  }

  lemma RestoreCount(m: multiset<string>, d: string)
    requires m[d] == 1
    ensures m[d := 0] + multiset{d} == m
  {
  }

  /** A card that occurs once keeps the row a permutation when it moves. */
  lemma ReinsertPermutes(s: seq<string>, d: string, target: Option<string>)
    requires target.Some? ==> target.value in s && target.value != d
    requires multiset(s)[d] == 1
    ensures multiset(Reinsert(s, d, target)) == multiset(s)
  {
    var w := Without(s, d);
    WithoutCounts(s, d);
    var k := if target.None? then |w| else IndexOf(w, target.value);
    assert Reinsert(s, d, target) == w[..k] + [d] + w[k..];
    InsertAddsOne(w, d, k);
    RestoreCount(multiset(s), d);
  }

  lemma {:induction false} IndexOfFirst(s: seq<string>, t: string, i: nat)
    requires i < |s| && s[i] == t && t !in s[..i]
    ensures IndexOf(s, t) == i
  {
    if i > 0 {
      assert s[0] in s[..i];
      assert s[1..][..i - 1] == s[1..i];
      assert s[..i] == [s[0]] + s[1..i];
      IndexOfFirst(s[1..], t, i - 1);
    }
  }

  /** The moved card ends up last, or immediately in front of the target. */
  lemma ReinsertPlaces(s: seq<string>, d: string, target: Option<string>)
    requires target.Some? ==> target.value in s && target.value != d
    ensures target.None? ==> Reinsert(s, d, target)[|Reinsert(s, d, target)| - 1] == d
    ensures target.Some? ==>
      var r := Reinsert(s, d, target);
      target.value in r && 0 < IndexOf(r, target.value) && r[IndexOf(r, target.value) - 1] == d
  {
    match target
    case None =>
    case Some(t) =>
      var w := Without(s, d);
      var k := IndexOf(w, t);
      var r := w[..k] + [d] + w[k..];
      assert r[k + 1] == t && r[k] == d;
      assert r[..k + 1] == w[..k] + [d];
      IndexOfFirst(r, t, k + 1);
  }
}
