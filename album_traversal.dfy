/**
 * Cyclic traversal of an album: the first image of an album and the
 * successor of an image inside its own album, wrapping from the last
 * position back to the first.
 */
module AlbumTraversal {
  import opened Wrappers
  import opened Images

  /** `x` lies in album `a` and, when a bound is given, strictly above it. */
  predicate Above(x: Image, a: int, bound: Option<int>)
  {
    x.albumId == a && (bound.None? || x.albumPosition > bound.value)
  }

  /**
   * The index of the row of album `a` with the lowest position among those
   * strictly above `bound` (all of the album when there is no bound); the
   * earliest such row on a tie. `LowestIndexSpec` states what it returns.
   */
  function LowestIndex(t: Table, a: int, bound: Option<int>): (r: Option<nat>)
    ensures r.Some? ==> r.value < |t| && Above(t[r.value], a, bound)
  {
    LowestAmong(t, a, bound, |t|)
  }

  /** `LowestIndex` restricted to the first `n` rows. */
  function LowestAmong(t: Table, a: int, bound: Option<int>, n: nat): (r: Option<nat>)
    requires n <= |t|
    ensures r.Some? ==> r.value < n && Above(t[r.value], a, bound)
  {
    if n == 0 then None
    else
      var rest := LowestAmong(t, a, bound, n - 1);
      if !Above(t[n - 1], a, bound) then rest
      else if rest.Some? && t[rest.value].albumPosition <= t[n - 1].albumPosition then rest
      else Some(n - 1)
  }

  lemma {:induction false} LowestAmongSpec(t: Table, a: int, bound: Option<int>, n: nat)
    requires n <= |t|
    ensures var r := LowestAmong(t, a, bound, n);
      && (r.None? <==> forall i :: 0 <= i < n ==> !Above(t[i], a, bound))
      && (r.Some? ==> Above(t[r.value], a, bound))
      && (r.Some? ==> forall i :: 0 <= i < n && Above(t[i], a, bound) ==>
                        t[r.value].albumPosition <= t[i].albumPosition)
  {
    if n > 0 { LowestAmongSpec(t, a, bound, n - 1); }
  }

  /** `LowestIndex` finds a row exactly when album `a` has one above the bound, and then one of lowest position. */
  lemma LowestIndexSpec(t: Table, a: int, bound: Option<int>)
    ensures var r := LowestIndex(t, a, bound);
      && (r.None? <==> forall i :: 0 <= i < |t| ==> !Above(t[i], a, bound))
      && (r.Some? ==> Above(t[r.value], a, bound))
      && (r.Some? ==> forall i :: 0 <= i < |t| && Above(t[i], a, bound) ==>
                        t[r.value].albumPosition <= t[i].albumPosition)
  {
    LowestAmongSpec(t, a, bound, |t|);
  }

  /** `ORDER BY album_position LIMIT 1` within album `a`; `None` for an album with no images. */
  function FirstImageInAlbum(t: Table, a: int): (r: Option<int>)
    ensures r.Some? ==> exists f :: 0 <= f < |t| && t[f].albumId == a && t[f].id == r.value
  {
    match LowestIndex(t, a, None)
    case None => None
    case Some(f) => Some(t[f].id)
  }

  /**
   * The first image of an album is the one with the smallest position;
   * there is none exactly when the album has no images.
   */
  lemma FirstImageIsLowest(t: Table, a: int)
    ensures FirstImageInAlbum(t, a).None? <==> forall i :: 0 <= i < |t| ==> t[i].albumId != a
    ensures FirstImageInAlbum(t, a).Some? ==>
      exists f :: 0 <= f < |t| && t[f].id == FirstImageInAlbum(t, a).value && t[f].albumId == a &&
        forall i :: 0 <= i < |t| && t[i].albumId == a ==> t[f].albumPosition <= t[i].albumPosition
  {
    LowestIndexSpec(t, a, None);
    assert forall i :: 0 <= i < |t| ==> (Above(t[i], a, None) <==> t[i].albumId == a);
  }

  /**
   * `COALESCE(LEAD(id), FIRST_VALUE(id)) OVER (PARTITION BY album_id ORDER BY album_position)`
   * read at the row `id`: the next image of the same album, or the album's
   * first image after its last one; `None` when no row has that id.
   */
  function NextInAlbum(t: Table, id: int): (r: Option<int>)
    ensures r.Some? ==>
      exists i, j :: 0 <= i < |t| && 0 <= j < |t| && t[i].id == id && t[j].albumId == t[i].albumId && t[j].id == r.value
  {
    match IndexOf(t, id)
    case None => None
    case Some(i) =>
      var lead := LowestIndex(t, t[i].albumId, Some(t[i].albumPosition));
      if lead.Some? then Some(t[lead.value].id)
      else FirstImageInAlbum(t, t[i].albumId)
  }

  /** The query yields no row exactly when no image has the id. */
  lemma NextOfUnknown(t: Table, id: int)
    ensures NextInAlbum(t, id).None? <==> forall i :: 0 <= i < |t| ==> t[i].id != id
  {
    match IndexOf(t, id)
    case None =>
    case Some(i) =>
      var a := t[i].albumId;
      LowestIndexSpec(t, a, None);
      assert Above(t[i], a, None);
  }

  /** Every image's successor is an image of the same album (the windows are partitioned by album). */
  lemma NextSameAlbum(t: Table, i: nat) returns (j: nat)
    requires IdsAscending(t)
    requires i < |t|
    ensures j < |t| && t[j].albumId == t[i].albumId
    ensures NextInAlbum(t, t[i].id) == Some(t[j].id)
  {
    var a, p := t[i].albumId, t[i].albumPosition;
    IndexOfRow(t, i);
    LowestIndexSpec(t, a, Some(p));
    LowestIndexSpec(t, a, None);
    assert Above(t[i], a, None);
    var lead := LowestIndex(t, a, Some(p));
    if lead.Some? {
      j := lead.value;
    } else {
      j := LowestIndex(t, a, None).value;
    }
  }

  /**
   * An image that is not the last of its album is followed by the image of
   * that album with the smallest position strictly above its own.
   */
  lemma NextNotLast(t: Table, i: nat, k: nat) returns (j: nat)
    requires IdsAscending(t)
    requires i < |t| && k < |t|
    requires t[k].albumId == t[i].albumId && t[k].albumPosition > t[i].albumPosition
    ensures j < |t| && t[j].albumId == t[i].albumId && t[j].albumPosition > t[i].albumPosition
    ensures forall m :: 0 <= m < |t| && t[m].albumId == t[i].albumId && t[m].albumPosition > t[i].albumPosition ==>
      t[j].albumPosition <= t[m].albumPosition
    ensures NextInAlbum(t, t[i].id) == Some(t[j].id)
  {
    var a, p := t[i].albumId, t[i].albumPosition;
    IndexOfRow(t, i);
    LowestIndexSpec(t, a, Some(p));
    assert Above(t[k], a, Some(p));
    j := LowestIndex(t, a, Some(p)).value;
    assert forall m :: 0 <= m < |t| && t[m].albumId == a && t[m].albumPosition > p ==> Above(t[m], a, Some(p));
  }

  /** The last image of an album (nothing positioned above it) is followed by the album's first image. */
  lemma NextWraps(t: Table, i: nat)
    requires IdsAscending(t)
    requires i < |t|
    requires forall m :: 0 <= m < |t| && t[m].albumId == t[i].albumId ==> t[m].albumPosition <= t[i].albumPosition
    ensures NextInAlbum(t, t[i].id) == FirstImageInAlbum(t, t[i].albumId)
    ensures FirstImageInAlbum(t, t[i].albumId).Some?
  {
    var a, p := t[i].albumId, t[i].albumPosition;
    IndexOfRow(t, i);
    LowestIndexSpec(t, a, Some(p));
    LowestIndexSpec(t, a, None);
    assert Above(t[i], a, None);
  }

  /** In an album with a single image, that image is its own successor. */
  lemma NextSingleton(t: Table, i: nat)
    requires IdsAscending(t)
    requires i < |t|
    requires forall m :: 0 <= m < |t| && t[m].albumId == t[i].albumId ==> m == i
    ensures NextInAlbum(t, t[i].id) == Some(t[i].id)
  {
    NextWraps(t, i);
    LowestIndexSpec(t, t[i].albumId, None);
  }

  /** The id reached from `start` after `k` successive calls of `NextInAlbum`. */
  function Advance(t: Table, start: int, k: nat): (r: Option<int>)
    ensures k > 0 && r.Some? ==> exists j :: 0 <= j < |t| && t[j].id == r.value
  {
    if k == 0 then Some(start)
    else match Advance(t, start, k - 1)
      case None => None
      case Some(id) => NextInAlbum(t, id)
  }

  // ---------------------------------------------------------------------
  // Counting the images of an album by position, over the first `n` rows.

  /** The number of images of album `a` among the first `n` rows. */
  function CountAll(t: Table, a: int, n: nat): nat
    requires n <= |t|
  {
    if n == 0 then 0 else CountAll(t, a, n - 1) + (if t[n - 1].albumId == a then 1 else 0)
  }

  /** The number of images of album `a`, among the first `n` rows, positioned strictly below `p`. */
  function CountBelow(t: Table, a: int, p: int, n: nat): nat
    requires n <= |t|
  {
    if n == 0 then 0
    else CountBelow(t, a, p, n - 1) + (if t[n - 1].albumId == a && t[n - 1].albumPosition < p then 1 else 0)
  }

  /** The number of images of album `a`, among the first `n` rows, positioned exactly at `p`. */
  function CountAt(t: Table, a: int, p: int, n: nat): nat
    requires n <= |t|
  {
    if n == 0 then 0
    else CountAt(t, a, p, n - 1) + (if t[n - 1].albumId == a && t[n - 1].albumPosition == p then 1 else 0)
  }

  /** The number of images of album `a`, among the first `n` rows, positioned strictly above `p`. */
  function CountAbove(t: Table, a: int, p: int, n: nat): nat
    requires n <= |t|
  {
    if n == 0 then 0
    else CountAbove(t, a, p, n - 1) + (if t[n - 1].albumId == a && t[n - 1].albumPosition > p then 1 else 0)
  }

  /** The number of images in album `a`. */
  function AlbumSize(t: Table, a: int): nat
  {
    CountAll(t, a, |t|)
  }

  /** The rank of row `i` in its album: how many images of the album come before it. */
  function Rank(t: Table, i: nat): nat
    requires i < |t|
  {
    CountBelow(t, t[i].albumId, t[i].albumPosition, |t|)
  }

  lemma {:induction false} SizeSplit(t: Table, a: int, p: int, n: nat)
    requires n <= |t|
    ensures CountAll(t, a, n) == CountBelow(t, a, p, n) + CountAt(t, a, p, n) + CountAbove(t, a, p, n)
  {
    if n > 0 { SizeSplit(t, a, p, n - 1); }
  }

  lemma {:induction false} CountAtOne(t: Table, i: nat, n: nat)
    requires PositionsUnique(t)
    requires i < n <= |t|
    ensures CountAt(t, t[i].albumId, t[i].albumPosition, n) == 1
  {
    if i == n - 1 {
      CountAtNone(t, i, i);
    } else {
      CountAtOne(t, i, n - 1);
      if t[n - 1].albumId == t[i].albumId { PositionsDistinct(t, i, n - 1); }
    }
  }

  /** No row among the first `n` shares the album and position of a later row `m`. */
  lemma {:induction false} CountAtNone(t: Table, m: nat, n: nat)
    requires PositionsUnique(t)
    requires n <= m < |t|
    ensures CountAt(t, t[m].albumId, t[m].albumPosition, n) == 0
  {
    if n > 0 {
      CountAtNone(t, m, n - 1);
      if t[n - 1].albumId == t[m].albumId { PositionsDistinct(t, n - 1, m); }
    }
  }

  lemma {:induction false} CountBelowNone(t: Table, a: int, p: int, n: nat)
    requires n <= |t|
    requires forall i :: 0 <= i < n && t[i].albumId == a ==> t[i].albumPosition >= p
    ensures CountBelow(t, a, p, n) == 0
  {
    if n > 0 { CountBelowNone(t, a, p, n - 1); }
  }

  lemma {:induction false} CountAboveNone(t: Table, a: int, p: int, n: nat)
    requires n <= |t|
    requires forall i :: 0 <= i < n && t[i].albumId == a ==> t[i].albumPosition <= p
    ensures CountAbove(t, a, p, n) == 0
  {
    if n > 0 { CountAboveNone(t, a, p, n - 1); }
  }

  lemma {:induction false} CountAboveSome(t: Table, j: nat, p: int, n: nat)
    requires j < n <= |t| && t[j].albumPosition > p
    ensures CountAbove(t, t[j].albumId, p, n) >= 1
  {
    if j < n - 1 { CountAboveSome(t, j, p, n - 1); }
  }

  /** With no image of the album strictly between `p` and `q`, moving the bound from `p` to `q` adds exactly the images at `p`. */
  lemma {:induction false} CountBelowGap(t: Table, a: int, p: int, q: int, n: nat)
    requires n <= |t| && p < q
    requires forall i :: 0 <= i < n && t[i].albumId == a ==> !(p < t[i].albumPosition < q)
    ensures CountBelow(t, a, q, n) == CountBelow(t, a, p, n) + CountAt(t, a, p, n)
  {
    if n > 0 { CountBelowGap(t, a, p, q, n - 1); }
  }

  lemma {:induction false} CountBelowGrows(t: Table, a: int, p: int, q: int, n: nat)
    requires n <= |t| && p < q
    ensures CountBelow(t, a, q, n) >= CountBelow(t, a, p, n) + CountAt(t, a, p, n)
  {
    if n > 0 { CountBelowGrows(t, a, p, q, n - 1); }
  }

  /** Within an album, the rank determines the image. */
  lemma RankInjective(t: Table, i: nat, j: nat)
    requires PositionsUnique(t)
    requires i < |t| && j < |t| && t[i].albumId == t[j].albumId
    requires Rank(t, i) == Rank(t, j)
    ensures i == j
  {
    var a := t[i].albumId;
    if t[i].albumPosition < t[j].albumPosition {
      CountBelowGrows(t, a, t[i].albumPosition, t[j].albumPosition, |t|);
      CountAtOne(t, i, |t|);
    } else if t[j].albumPosition < t[i].albumPosition {
      CountBelowGrows(t, a, t[j].albumPosition, t[i].albumPosition, |t|);
      CountAtOne(t, j, |t|);
    } else if i != j {
      PositionsDistinct(t, i, j);
    }
  }

  /** Every image of an album ranks below the album's size. */
  lemma RankBelowSize(t: Table, i: nat)
    requires PositionsUnique(t)
    requires i < |t|
    ensures Rank(t, i) < AlbumSize(t, t[i].albumId)
  {
    SizeSplit(t, t[i].albumId, t[i].albumPosition, |t|);
    CountAtOne(t, i, |t|);
  }

  /** The first image of an album has rank 0. */
  lemma FirstHasRankZero(t: Table, a: int) returns (f: nat)
    requires FirstImageInAlbum(t, a).Some?
    ensures f < |t| && t[f].albumId == a && t[f].id == FirstImageInAlbum(t, a).value
    ensures Rank(t, f) == 0
  {
    LowestIndexSpec(t, a, None);
    f := LowestIndex(t, a, None).value;
    forall i | 0 <= i < |t| && t[i].albumId == a ensures t[i].albumPosition >= t[f].albumPosition {
      assert Above(t[i], a, None);
    }
    CountBelowNone(t, a, t[f].albumPosition, |t|);
  }

  /** The successor of the image of rank `k` is the image of rank `k + 1`, or of rank 0 after the last one. */
  lemma NextRank(t: Table, i: nat) returns (j: nat)
    requires WellFormed(t)
    requires i < |t|
    ensures j < |t| && t[j].albumId == t[i].albumId
    ensures NextInAlbum(t, t[i].id) == Some(t[j].id)
    ensures Rank(t, j) == if Rank(t, i) + 1 < AlbumSize(t, t[i].albumId) then Rank(t, i) + 1 else 0
  {
    var a, p := t[i].albumId, t[i].albumPosition;
    IndexOfRow(t, i);
    SizeSplit(t, a, p, |t|);
    CountAtOne(t, i, |t|);
    LowestIndexSpec(t, a, Some(p));
    var lead := LowestIndex(t, a, Some(p));
    if lead.Some? {
      j := lead.value;
      forall m | 0 <= m < |t| && t[m].albumId == a
        ensures !(p < t[m].albumPosition < t[j].albumPosition)
      {
        if p < t[m].albumPosition { assert Above(t[m], a, Some(p)); }
      }
      CountBelowGap(t, a, p, t[j].albumPosition, |t|);
      CountAboveSome(t, j, p, |t|);
    } else {
      forall m | 0 <= m < |t| && t[m].albumId == a
        ensures t[m].albumPosition <= p
      {
        assert !Above(t[m], a, Some(p));
      }
      CountAboveNone(t, a, p, |t|);
      LowestIndexSpec(t, a, None);
      assert Above(t[i], a, None);
      j := FirstHasRankZero(t, a);
    }
  }

  /** One more call of `NextInAlbum` after `k` steps. */
  lemma AdvanceStep(t: Table, start: int, k: nat, id: int)
    requires Advance(t, start, k) == Some(id)
    ensures Advance(t, start, k + 1) == NextInAlbum(t, id)
  {
  }

  /** Step `k < n` from the first image reaches the image of rank `k`. */
  lemma {:induction false} AdvanceRank(t: Table, a: int, f: nat, k: nat) returns (j: nat)
    requires WellFormed(t)
    requires f < |t| && t[f].albumId == a && Rank(t, f) == 0
    requires k < AlbumSize(t, a)
    ensures j < |t| && t[j].albumId == a && Rank(t, j) == k
    ensures Advance(t, t[f].id, k) == Some(t[j].id)
  {
    if k == 0 {
      j := f;
    } else {
      var prev := AdvanceRank(t, a, f, k - 1);
      j := NextRank(t, prev);
      AdvanceStep(t, t[f].id, k - 1, t[prev].id);
    }
  }

  lemma ClosesFrom(t: Table, a: int, f: nat)
    requires WellFormed(t)
    requires f < |t| && t[f].albumId == a && Rank(t, f) == 0
    ensures Advance(t, t[f].id, AlbumSize(t, a)) == Some(t[f].id)
  {
    var n := AlbumSize(t, a);
    RankBelowSize(t, f);
    var last := AdvanceRank(t, a, f, n - 1);
    var g := NextRank(t, last);
    RankInjective(t, g, f);
    AdvanceStep(t, t[f].id, n - 1, t[last].id);
  }

  /** After as many steps as the album has images, the walk is back at the first image. */
  lemma CycleCloses(t: Table, a: int)
    requires WellFormed(t)
    requires FirstImageInAlbum(t, a).Some?
    ensures Advance(t, FirstImageInAlbum(t, a).value, AlbumSize(t, a)) == Some(FirstImageInAlbum(t, a).value)
  {
    var f := FirstHasRankZero(t, a);
    ClosesFrom(t, a, f);
  }

  /** The first steps of the walk, as many as the album has images, reach pairwise different images of the album. */
  lemma CycleDistinct(t: Table, a: int, k1: nat, k2: nat)
    requires WellFormed(t)
    requires FirstImageInAlbum(t, a).Some?
    requires k1 < k2 < AlbumSize(t, a)
    ensures Advance(t, FirstImageInAlbum(t, a).value, k1) != Advance(t, FirstImageInAlbum(t, a).value, k2)
  {
    var f := FirstHasRankZero(t, a);
    var j1 := AdvanceRank(t, a, f, k1);
    var j2 := AdvanceRank(t, a, f, k2);
    KeysDistinct(t, j1, j2);
  }

  /** Each of the first `AlbumSize` steps of the walk reaches an image of the album. */
  lemma CycleStays(t: Table, a: int, k: nat) returns (i: nat)
    requires WellFormed(t)
    requires FirstImageInAlbum(t, a).Some?
    requires k < AlbumSize(t, a)
    ensures i < |t| && t[i].albumId == a
    ensures Advance(t, FirstImageInAlbum(t, a).value, k) == Some(t[i].id)
  {
    var f := FirstHasRankZero(t, a);
    i := AdvanceRank(t, a, f, k);
  }

  /** Every image of the album is reached within the first `AlbumSize` steps, at the step given by its rank. */
  lemma CycleCovers(t: Table, a: int, i: nat)
    requires WellFormed(t)
    requires FirstImageInAlbum(t, a).Some?
    requires i < |t| && t[i].albumId == a
    ensures Rank(t, i) < AlbumSize(t, a)
    ensures Advance(t, FirstImageInAlbum(t, a).value, Rank(t, i)) == Some(t[i].id)
  {
    var f := FirstHasRankZero(t, a);
    RankBelowSize(t, i);
    var j := AdvanceRank(t, a, f, Rank(t, i));
    RankInjective(t, i, j);
  }

  /** `r` is the id of an image of album `a`. */
  predicate IsAlbumImage(t: Table, a: int, r: Option<int>)
  {
    exists i :: 0 <= i < |t| && t[i].albumId == a && r == Some(t[i].id)
  }

  /** The walk from `first` reaches `id` within its first `n` steps. */
  predicate Reached(t: Table, first: int, n: nat, id: int)
  {
    exists k :: 0 <= k < n && Advance(t, first, k) == Some(id)
  }

  /**
   * The "viewed all images" condition of the exploring loop: starting from
   * the album's first image, `NextInAlbum` stays in the album, visits every
   * image of it exactly once and comes back to the first image after exactly
   * as many steps as the album has images.
   */
  lemma FullCycle(t: Table, a: int, first: int)
    requires WellFormed(t)
    requires FirstImageInAlbum(t, a) == Some(first)
    ensures Advance(t, first, AlbumSize(t, a)) == Some(first)
    ensures forall k1, k2 :: 0 <= k1 < k2 < AlbumSize(t, a) ==> Advance(t, first, k1) != Advance(t, first, k2)
    ensures forall k :: 0 <= k < AlbumSize(t, a) ==> IsAlbumImage(t, a, Advance(t, first, k))
    ensures forall i :: 0 <= i < |t| && t[i].albumId == a ==> Reached(t, first, AlbumSize(t, a), t[i].id)
  {
    CycleCloses(t, a);
    forall k1, k2 | 0 <= k1 < k2 < AlbumSize(t, a)
      ensures Advance(t, first, k1) != Advance(t, first, k2)
    {
      CycleDistinct(t, a, k1, k2);
    }
    forall k | 0 <= k < AlbumSize(t, a)
      ensures IsAlbumImage(t, a, Advance(t, first, k))
    {
      var j := CycleStays(t, a, k);
    }
    forall i | 0 <= i < |t| && t[i].albumId == a
      ensures Reached(t, first, AlbumSize(t, a), t[i].id)
    {
      CycleCovers(t, a, i);
    }
  }

  /** Leaving the first image, the exploring loop does not meet it again before the album is exhausted. */
  lemma NoEarlyReturn(t: Table, a: int, k: nat)
    requires WellFormed(t)
    requires FirstImageInAlbum(t, a).Some?
    requires 0 < k < AlbumSize(t, a)
    ensures Advance(t, FirstImageInAlbum(t, a).value, k) != Some(FirstImageInAlbum(t, a).value)
  {
    CycleDistinct(t, a, 0, k);
  }
}
