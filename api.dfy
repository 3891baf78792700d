/**
 * The HTTP handlers as operations on an in-memory store of image records:
 * reading the first image of an album, liking or skipping an image with the
 * cyclic or the weighted successor, and the dashboard lists.
 */
module Api {
  import opened Wrappers
  import opened Images
  import opened AlbumTraversal
  import opened WeightedPick
  import opened Dashboard

  /** What a handler answers: a record, JSON `null`, HTTP 404, or HTTP 500. */
  datatype Reply = Record(image: Image) | Null | NotFound | ServerError

  /**
   * `jsonable_encoder(session.query(ImageDB).where(ImageDB.id == id).first())`:
   * the record with that id, or `null` when there is none. With a missing id
   * the filter `ImageDB.id == None` is rendered as `images.id IS NULL`; no record
   * has a NULL id (ids are integers here), so that reply is `null` too.
   */
  function Fetch(t: Table, id: Option<int>): (reply: Reply)
    ensures reply.Record? || reply.Null?
    ensures reply.Record? <==> id.Some? && exists i :: 0 <= i < |t| && t[i].id == id.value
    ensures reply.Record? ==> reply.image in t && reply.image.id == id.value
  {
    match id
    case None => Null
    case Some(key) =>
      match Lookup(t, key)
      case None => Null
      case Some(x) => Record(x)
  }

  /** `likes_count += 1` and `last_update = now` on one record. */
  function Liked(x: Image, now: int): (y: Image)
    ensures y.likesCount == x.likesCount + 1 && y.lastUpdate == Some(now)
    ensures y.id == x.id && y.albumId == x.albumId && y.albumPosition == x.albumPosition
  {
    x.(likesCount := x.likesCount + 1, lastUpdate := Some(now))
  }

  /** Two tables with the same rows up to likes and update times. */
  predicate SameLayout(t: Table, u: Table)
  {
    && |t| == |u|
    && forall i :: 0 <= i < |t| ==>
         t[i].id == u[i].id && t[i].albumId == u[i].albumId && t[i].albumPosition == u[i].albumPosition
  }

  /** Liking a record changes neither ids nor albums nor positions. */
  lemma LikeKeepsLayout(t: Table, i: nat, now: int)
    requires i < |t|
    ensures SameLayout(t, t[i := Liked(t[i], now)])
    ensures WellFormed(t) ==> WellFormed(t[i := Liked(t[i], now)])
  {
    var u := t[i := Liked(t[i], now)];
    if WellFormed(t) {
      forall a: nat, b: nat | a < b < |u|
        ensures KeysInOrder(u, a, b)
      {
        assert KeysInOrder(t, a, b);
      }
      forall a: nat, b: nat | a < b < |u|
        ensures PositionsDiffer(u, a, b)
      {
        assert PositionsDiffer(t, a, b);
      }
    }
  }

  lemma {:induction false} LowestAmongSameLayout(t: Table, u: Table, a: int, bound: Option<int>, n: nat)
    requires SameLayout(t, u)
    requires n <= |t|
    ensures LowestAmong(t, a, bound, n) == LowestAmong(u, a, bound, n)
  {
    if n > 0 {
      LowestAmongSameLayout(t, u, a, bound, n - 1);
      assert Above(t[n - 1], a, bound) == Above(u[n - 1], a, bound);
    }
  }

  lemma IndexOfSameLayout(t: Table, u: Table, id: int)
    requires SameLayout(t, u)
    ensures IndexOf(t, id) == IndexOf(u, id)
  {
  }

  /**
   * The cyclic successor and the first image of an album depend only on ids,
   * albums and positions, so liking an image changes neither.
   */
  lemma TraversalIgnoresLikes(t: Table, u: Table, id: int, a: int)
    requires SameLayout(t, u)
    ensures NextInAlbum(u, id) == NextInAlbum(t, id)
    ensures FirstImageInAlbum(u, a) == FirstImageInAlbum(t, a)
  {
    IndexOfSameLayout(t, u, id);
    LowestAmongSameLayout(t, u, a, None, |t|);
    match IndexOf(t, id)
    case None =>
    case Some(i) =>
      LowestAmongSameLayout(t, u, t[i].albumId, Some(t[i].albumPosition), |t|);
      LowestAmongSameLayout(t, u, t[i].albumId, None, |t|);
  }

  /** The store: the `images` table, kept in primary-key order with positions unique per album. */
  class Store {
    var images: Table

    ghost predicate Valid()
      reads this
    {
      WellFormed(images)
    }

    constructor(t: Table)
      requires WellFormed(t)
      ensures Valid() && images == t
    {
      images := t;
    }

    /**
     * `GET /api/get_first_image_in_album`: 404 exactly when the album has no
     * images, otherwise the album's image with the smallest position.
     */
    method GetFirstImageInAlbum(albumId: int) returns (reply: Reply)
      requires Valid()
      ensures reply.NotFound? <==> forall i :: 0 <= i < |images| ==> images[i].albumId != albumId
      ensures reply.NotFound? || reply.Record?
      ensures reply.Record? ==>
        && reply.image in images
        && Some(reply.image.id) == FirstImageInAlbum(images, albumId)
        && reply.image.albumId == albumId
        && forall i :: 0 <= i < |images| && images[i].albumId == albumId ==>
             reply.image.albumPosition <= images[i].albumPosition
    {
      var first := FirstImageInAlbum(images, albumId);
      FirstImageIsLowest(images, albumId);
      if first.None? {
        return NotFound;
      }
      var f :| 0 <= f < |images| && images[f].id == first.value && images[f].albumId == albumId &&
        forall i :: 0 <= i < |images| && images[i].albumId == albumId ==> images[f].albumPosition <= images[i].albumPosition;
      reply := Fetch(images, first);
      IndexOfRow(images, f);
    }

    /**
     * `GET /api/like_image`: 404 and no change for an unknown id; otherwise
     * the record gains one like and the time `now`, nothing else changes, and
     * the reply is the image's cyclic successor, read after the update.
     */
    method LikeImage(id: int, now: int) returns (reply: Reply)
      requires Valid()
      modifies this
      ensures Valid()
      ensures match IndexOf(old(images), id)
        case None => reply == NotFound && images == old(images)
        case Some(i) =>
          && images == old(images)[i := Liked(old(images)[i], now)]
          && reply == Fetch(images, NextInAlbum(old(images), id))
          && reply.Record?
          && reply.image.albumId == old(images)[i].albumId
          && NextInAlbum(images, id) == NextInAlbum(old(images), id)
    {
      var next := NextInAlbum(images, id);
      NextOfUnknown(images, id);
      if next.None? {
        return NotFound;
      }
      var i := IndexOf(images, id).value;
      var j := NextSameAlbum(images, i);
      LikeKeepsLayout(images, i, now);
      var before := images;
      images := images[i := Liked(images[i], now)];
      reply := Fetch(images, next);
      IndexOfRow(images, j);
      assert images[j].albumId == before[j].albumId;
      TraversalIgnoresLikes(before, images, id, before[i].albumId);
    }

    /** `GET /api/skip_image`: the cyclic successor, or 404 for an unknown id; the store is untouched. */
    method SkipImage(id: int) returns (reply: Reply)
      requires Valid()
      ensures reply.NotFound? <==> forall i :: 0 <= i < |images| ==> images[i].id != id
      ensures !reply.NotFound? ==>
        && reply == Fetch(images, NextInAlbum(images, id))
        && reply.Record?
        && reply.image in images
        && Some(reply.image.id) == NextInAlbum(images, id)
        && exists i :: 0 <= i < |images| && images[i].id == id && images[i].albumId == reply.image.albumId
    {
      var next := NextInAlbum(images, id);
      NextOfUnknown(images, id);
      if next.None? {
        return NotFound;
      }
      var i := IndexOf(images, id).value;
      var j := NextSameAlbum(images, i);
      reply := Fetch(images, next);
      IndexOfRow(images, j);
    }

    /**
     * `GET /api/like_image_v2`: the weighted pick excluding `id` is drawn from
     * the likes before the update; an unknown id fails with 500 and no change
     * (the handler has no not-found check); otherwise the record gains one like
     * and the time `now`, and the reply is the picked record, or `null`.
     */
    method LikeImageV2(id: int, favourite: int, r: nat, now: int) returns (reply: Reply)
      requires Valid()
      modifies this
      ensures Valid()
      ensures match IndexOf(old(images), id)
        case None => reply == ServerError && images == old(images)
        case Some(i) =>
          && images == old(images)[i := Liked(old(images)[i], now)]
          && reply == Fetch(images, NextImage(old(images), favourite, id, r))
          && (reply.Record? <==> NextImage(old(images), favourite, id, r).Some?)
          && (reply.Record? ==> reply.image.id != id)
    {
      var next := NextImage(images, favourite, id, r);
      PickExcludes(images, favourite, id, r);
      var found := IndexOf(images, id);
      if found.None? {
        return ServerError;
      }
      var i := found.value;
      LikeKeepsLayout(images, i, now);
      var before := images;
      images := images[i := Liked(images[i], now)];
      reply := Fetch(images, next);
      if next.Some? {
        var j :| 0 <= j < |before| && before[j].id == next.value;
        assert images[j].id == next.value;
      }
    }

    /**
     * `GET /api/skip_image_v2`: the weighted pick excluding `id` (by default
     * `-1`, which excludes nothing), or `null`; the store is untouched.
     */
    method SkipImageV2(id: int, favourite: int, r: nat) returns (reply: Reply)
      requires Valid()
      ensures reply == Fetch(images, NextImage(images, favourite, id, r))
      ensures reply.Record? <==> NextImage(images, favourite, id, r).Some?
      ensures reply.Record? ==> reply.image.id != id && reply.image in images
    {
      var next := NextImage(images, favourite, id, r);
      PickExcludes(images, favourite, id, r);
      reply := Fetch(images, next);
    }

    /**
     * `GET /api/print_dashboard` past the secret check: the `n` most liked
     * records and the `k` most recently liked ones.
     */
    method TopImages(n: int, k: int) returns (top: seq<Image>, last: seq<Image>)
      requires Valid()
      ensures top == Top(images, n) && last == Last(images, k)
      ensures |top| == Limit(n, |images|) && SortedDesc(top, Likes)
      ensures forall i :: 0 <= i < |last| ==> last[i].lastUpdate.Some?
      ensures SortedDesc(last, Updated)
      ensures multiset(top) <= multiset(images) && multiset(last) <= multiset(images)
    {
      top := Top(images, n);
      last := Last(images, k);
      var restTop := TopSpec(images, n);
      var restLast := LastSpec(images, k);
      StampedSpec(images);
    }
  }
}
