/**
 * The `images` table as the selection queries read it: every row carries its
 * primary key `id`, the album it belongs to, its position inside that album,
 * its like-count and the nullable time of its most recent like.
 */
module Images {
  import opened Wrappers

  datatype Image = Image(
    id: int,
    albumId: int,
    albumPosition: int,
    likesCount: nat,
    lastUpdate: Option<int>)

  /** The rows of the table, listed in primary-key order. */
  type Table = seq<Image>

  /** Rows `i` and `j`, with `i` listed first, are in primary-key order. */
  predicate KeysInOrder(t: Table, i: nat, j: nat)
    requires i < j < |t|
  {
    t[i].id < t[j].id
  }

  /** Rows `i` and `j` do not share a position in one album. */
  predicate PositionsDiffer(t: Table, i: nat, j: nat)
    requires i < j < |t|
  {
    t[i].albumId == t[j].albumId ==> t[i].albumPosition != t[j].albumPosition
  }

  /**
   * `id` is the primary key and the table is listed by it. (The quantifier
   * fires on `KeysInOrder` terms only, so that long proofs about the table
   * do not instantiate it for every pair of rows they mention.)
   */
  predicate IdsAscending(t: Table)
  {
    forall i: nat, j: nat {:trigger KeysInOrder(t, i, j)} :: i < j < |t| ==> KeysInOrder(t, i, j)
  }

  /** Ingestion numbers the images of an album 0, 1, 2, ..., so no two share a position. */
  predicate PositionsUnique(t: Table)
  {
    forall i: nat, j: nat {:trigger PositionsDiffer(t, i, j)} :: i < j < |t| ==> PositionsDiffer(t, i, j)
  }

  /** Distinct rows of a well-keyed table have distinct keys. */
  lemma KeysDistinct(t: Table, i: nat, j: nat)
    requires IdsAscending(t)
    requires i < |t| && j < |t| && i != j
    ensures t[i].id != t[j].id
  {
    if i < j { assert KeysInOrder(t, i, j); } else { assert KeysInOrder(t, j, i); }
  }

  /** Distinct rows of one album have distinct positions. */
  lemma PositionsDistinct(t: Table, i: nat, j: nat)
    requires PositionsUnique(t)
    requires i < |t| && j < |t| && i != j && t[i].albumId == t[j].albumId
    ensures t[i].albumPosition != t[j].albumPosition
  {
    if i < j { assert PositionsDiffer(t, i, j); } else { assert PositionsDiffer(t, j, i); }
  }

  predicate WellFormed(t: Table)
  {
    IdsAscending(t) && PositionsUnique(t)
  }

  /** The index of the first row whose primary key is `id`. */
  function IndexOf(t: Table, id: int): (r: Option<nat>)
    ensures r.None? <==> forall i :: 0 <= i < |t| ==> t[i].id != id
    ensures r.Some? ==> r.value < |t| && t[r.value].id == id
    ensures r.Some? ==> forall i :: 0 <= i < r.value ==> t[i].id != id
  {
    IndexFrom(t, id, 0)
  }

  /** The index of the first row at or after `k` whose primary key is `id`. */
  function IndexFrom(t: Table, id: int, k: nat): (r: Option<nat>)
    requires k <= |t|
    ensures r.None? <==> forall i :: k <= i < |t| ==> t[i].id != id
    ensures r.Some? ==> k <= r.value < |t| && t[r.value].id == id
    ensures r.Some? ==> forall i :: k <= i < r.value ==> t[i].id != id
    decreases |t| - k
  {
    if k == |t| then None
    else if t[k].id == id then Some(k)
    else IndexFrom(t, id, k + 1)
  }

  /** With unique keys, every row is found at its own index. */
  lemma IndexOfRow(t: Table, i: nat)
    requires IdsAscending(t)
    requires i < |t|
    ensures IndexOf(t, t[i].id) == Some(i)
  {
    forall k | 0 <= k < i ensures t[k].id != t[i].id { KeysDistinct(t, k, i); }
  }

  /** `session.query(ImageDB).where(ImageDB.id == id).first()`. */
  function Lookup(t: Table, id: int): (r: Option<Image>)
    ensures r.None? <==> forall i :: 0 <= i < |t| ==> t[i].id != id
    ensures r.Some? ==> r.value in t && r.value.id == id
  {
    match IndexOf(t, id)
    case None => None
    case Some(i) => Some(t[i])
  }
}
