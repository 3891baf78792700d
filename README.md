# Image selection engine — a Dafny model

This project models the selection engine of a small image-rating service.
The service keeps a table of image records (`id`, `album_id`,
`album_position`, `likes_count`, nullable `last_update`) and offers:

- **Cyclic album traversal** (`explore_images.py`). The first image of an
  album is the one with the smallest position. The successor of an image is
  the next image of its album by position, and after the last image it is
  the first one again. This comes from `COALESCE(LEAD(id), FIRST_VALUE(id))`
  over windows partitioned by album.
- **Favourite-weighted random pick** (`explore_images_v2.py`). Every image
  except an excluded one is a candidate. A candidate's weight is
  `likes_count + 1`, except the favourite, which weighs as much as all other
  candidates together. A random non-negative number is reduced modulo the
  total weight. The first candidate in id order whose running weight exceeds
  it is picked.
- **Handlers** (`api.py`). Like an image (one more like and a timestamp),
  skip it, and read the first image of an album and the dashboard lists
  (top by likes, most recently liked).

The table is a `seq<Image>` listed in primary-key order (`Images.Table`).
Its invariant `WellFormed` says two things: ids strictly ascend, and
positions are unique within an album. Ingestion assigns
`album_position = i` to the `i`-th image of an album
(`download_images.py:60`), which is why positions are unique. The random
value `ABS(RANDOM())` and the clock `datetime.now()` are parameters (`r`,
`now`). Every query therefore becomes a deterministic function.

Modules:

- `Wrappers` holds the nullable query result `Option`.
- `Images` holds the record, the table, its invariant and lookup by key.
- `AlbumTraversal` covers `explore_images.py`.
- `WeightedPick` covers `explore_images_v2.py`.
- `Dashboard` covers the sort-and-limit queries of the dashboard.
- `Api` holds the handlers, as methods of a `Store` class. Its `images` field is the table; `LikeImage` and `LikeImageV2` reassign it.

SQL semantics written out:

- `.scalar()` and `.first()` give `None` when no row matches.
- When the picked id is `None`, the filter `ImageDB.id == None` is rendered as `images.id IS NULL`. No record has a NULL id, since ids are integers in the model, so the reply is JSON `null`.
- `x % 0` is NULL, so a zero total weight selects no row.
- A negative `LIMIT` keeps every row.
- `sum(p) OVER (ORDER BY id)` is the inclusive running sum in id order.

When the favourite is the only candidate, its weight is the sum over no other candidates, which is 0. The total is then 0, `r % 0` is NULL, and no row is returned (`WeightedPick.FavouriteHalf`, `WeightedPick.NoPick`).

## Model

| member | source | states |
|---|---|---|
| `Images.IndexOf` | api.py:106-111 | The row index found for a key is the first row with that key, and there is none exactly when no row has the key. |
| `Images.IndexOfRow` | api.py:106-111 | With unique keys, every row is found at its own index. |
| `Images.Lookup` | api.py:82-85 | `.where(id == key).first()` gives `None` exactly when no record has the key, otherwise a record of the table with that key. |
| `AlbumTraversal.LowestIndexSpec` | explore_images.py:15-19 | The position scan finds a row exactly when the album has one above the bound, and then one of lowest position. |
| `AlbumTraversal.FirstImageInAlbum` | explore_images.py:7-22 | `ORDER BY album_position LIMIT 1` within an album: its own contract says a returned id belongs to an image of that album; `FirstImageIsLowest` states that it is the minimum-position image and `None` exactly for an empty album. |
| `AlbumTraversal.FirstImageIsLowest` | explore_images.py:7-22 | The first image of an album is `None` exactly when the album is empty, otherwise the id of an album image with the minimum position. |
| `AlbumTraversal.NextInAlbum` | explore_images.py:25-47 | `COALESCE(LEAD(id), FIRST_VALUE(id))` read at the row `id`: its own contract says a returned id is an image of the same album as `id`; `NextOfUnknown`, `NextNotLast`, `NextWraps`, `NextSingleton` and `NextSameAlbum` state the unknown-id, next-position, wrap-around and one-image cases. |
| `AlbumTraversal.NextOfUnknown` | explore_images.py:25-47 | The successor is `None` exactly when no image has the id (`WHERE id = :id` matches nothing). |
| `AlbumTraversal.NextSameAlbum` | explore_images.py:36-37 | Every image's successor exists and is an image of the same album, because the windows are partitioned by album. |
| `AlbumTraversal.NextNotLast` | explore_images.py:36 | An image with a higher-positioned image in its album is followed by the album image with the smallest position strictly above its own (`LEAD`). |
| `AlbumTraversal.NextWraps` | explore_images.py:35-38 | The image with the highest position is followed by the album's first image (`FIRST_VALUE` through `COALESCE`). |
| `AlbumTraversal.NextSingleton` | explore_images.py:35-38 | In a one-image album the image is its own successor. |
| `AlbumTraversal.Advance` | explore_images.py:84-95 | The id after `k` reassignments `image_id = next_image_in_album(image_id)`: its own contract says every reached id after a step is an image of the table; `AdvanceRank`, `FullCycle` and `NoEarlyReturn` state the cycle. |
| `AlbumTraversal.RankInjective` | download_images.py:60 | With unique positions, two images of an album never share a rank, i.e. the number of album images positioned below them. |
| `AlbumTraversal.NextRank` | explore_images.py:35-38 | The successor of the image of rank `k` is the image of rank `k + 1`, or of rank 0 after the last one. |
| `AlbumTraversal.AdvanceRank` | explore_images.py:84-95 | After `k` steps from the first image, for `k` below the album size, the walk is at the album image of rank `k`. |
| `AlbumTraversal.CycleCloses` | explore_images.py:121 | After as many successor steps as the album has images, the walk is back at the first image. |
| `AlbumTraversal.CycleDistinct` | explore_images.py:84-95 | The first album-size steps of the walk reach pairwise different images. |
| `AlbumTraversal.CycleCovers` | explore_images.py:84-95 | Every image of the album is reached within the first album-size steps. |
| `AlbumTraversal.FullCycle` | explore_images.py:84-95 | From the first image, the walk stays in the album, never repeats within album-size steps, reaches every album image, and returns to the first image after exactly album-size steps. |
| `AlbumTraversal.NoEarlyReturn` | explore_images.py:121 | The "viewed all images" test `image_id == first_image_id` does not fire before every image of the album has been shown. |
| `WeightedPick.Candidates` | explore_images_v2.py:27-28 | `WHERE id <> :id`: its own contract says no candidate has the excluded id; `CandidatesSpec` states that every other image is a candidate and `CandidatesAscending` that id order is kept. |
| `WeightedPick.CandidatesSpec` | explore_images_v2.py:27-28 | The candidates are exactly the images whose id differs from the excluded one. |
| `WeightedPick.CandidatesAscending` | explore_images_v2.py:18 | Filtering keeps id order, so running sums in list order are running sums in id order. |
| `WeightedPick.DefaultExcludesNothing` | explore_images_v2.py:8 | The default exclusion `-1`, an id no image has, leaves every image a candidate. |
| `WeightedPick.Weights` | explore_images_v2.py:23-26 | The column `p`, one weight per candidate; `WeightsNonNegative`, `FavouriteWeight`, `FavouriteHalf` and `FavouriteAbsent` state the weights. |
| `WeightedPick.WeightsNonNegative` | explore_images_v2.py:23-26 | Every non-favourite weight is `likes_count + 1`, at least 1, and no weight is negative. |
| `WeightedPick.FavouriteWeight` | explore_images_v2.py:24 | The favourite's weight equals the sum of `likes_count + 1` over all other candidates. |
| `WeightedPick.FavouriteHalf` | explore_images_v2.py:24 | A candidate favourite carries exactly half of the total weight, and weighs 0 when it is the only candidate. |
| `WeightedPick.FavouriteAbsent` | explore_images_v2.py:23-28 | When the favourite is excluded or absent, every weight is plain `likes_count + 1`. |
| `WeightedPick.NextImage` | explore_images_v2.py:8-38 | The whole query with `ABS(RANDOM())` as `r`: its own contract says the pick is never the excluded id; `PickSpec`, `PickSmallestId`, `NoPick` and `ResidueCount` state which candidate is picked, when none is, and that each is picked for its weight's worth of residues. |
| `WeightedPick.FirstAboveSpec` | explore_images_v2.py:18 | The scan finds nothing exactly when no running weight exceeds the target; otherwise it finds the first index whose running weight does. |
| `WeightedPick.PickSpec` | explore_images_v2.py:18 | With a positive total some candidate is picked: the first whose running weight exceeds `r % total`, bracketed by its prefix sum and its running sum. |
| `WeightedPick.PickUnique` | explore_images_v2.py:33-35 | At most one candidate brackets a given residue, so the pick for a fixed `r` is unique. |
| `WeightedPick.PickSmallestId` | explore_images_v2.py:33-35 | The picked id is the smallest among the candidates whose running weight exceeds `r % total` (`ORDER BY id LIMIT 1`). |
| `WeightedPick.PickExcludes` | explore_images_v2.py:28 | A picked id is never the excluded id, and it is the id of an image of the table. |
| `WeightedPick.TotalPositive` | explore_images_v2.py:25 | An image that is neither excluded nor the favourite makes the total weight positive. |
| `WeightedPick.TotalZero` | explore_images_v2.py:24 | When every image is excluded or the favourite, the total weight is 0. |
| `WeightedPick.NoPickIffZero` | explore_images_v2.py:18 | Nothing is picked exactly when the total weight is 0 (`r % 0` is NULL). |
| `WeightedPick.NoPick` | explore_images_v2.py:18-33 | Nothing is picked exactly when every image is the excluded one or the favourite. |
| `WeightedPick.IndexResidues` | explore_images_v2.py:18 | Among the targets in `[0, total)`, each index is the first to be exceeded for exactly its weight's worth of targets. |
| `WeightedPick.ResidueCount` | explore_images_v2.py:18 | Across the residues `r` in `[0, total)`, each candidate is picked for exactly as many residues as its weight. |
| `Dashboard.SortDescSpec` | api.py:228 | `ORDER BY ... DESC` yields a permutation of the records in non-increasing key order. |
| `Dashboard.Limit` | api.py:229 | `LIMIT n` keeps `min(n, len)` rows, and every row for a negative `n`. |
| `Dashboard.TopBySpec` | api.py:226-230 | Sort-and-limit yields `Limit(n, len)` records in non-increasing key order. With the records left out they make up the input, and no left-out record has a greater key than a listed one. |
| `Dashboard.StampedSpec` | api.py:236 | `last_update IS NOT NULL` keeps exactly the stamped records, each as often as in the table. |
| `Dashboard.StampedCount` | api.py:236 | A record occurs in the filtered list as often as in the table when it has a `last_update`, and never otherwise. |
| `Dashboard.Top` | api.py:225-231 | `ORDER BY likes_count DESC LIMIT n`: its own contract gives its length `Limit(n, len)`; `TopSpec` states its order and that no left-out record has more likes. |
| `Dashboard.TopSpec` | api.py:225-231 | The top list has as many records as `Limit(n, len)` allows in non-increasing `likes_count` order, drawn from the table, and no record left out has more likes than a listed one. |
| `Dashboard.Last` | api.py:232-239 | `ORDER BY last_update DESC` over the stamped records, `LIMIT k`: its own contract bounds its length by the table and by `k`; `LastSpec` states that all are stamped, their order and that no left-out stamped record is more recent. |
| `Dashboard.LastSpec` | api.py:232-239 | The recent list has at most `k` records, all with a `last_update`, in non-increasing `last_update` order, drawn from the stamped records, and no stamped record left out is more recent than a listed one. |
| `Api.Fetch` | api.py:117-122 | Serialising the record for an optional id gives a record exactly when the id is present and some image has it, and JSON `null` otherwise. |
| `Api.Liked` | api.py:112-113 | A like adds exactly 1 to `likes_count`, sets `last_update` to the given time, and keeps id, album and position. |
| `Api.LikeKeepsLayout` | api.py:112-115 | A like keeps every id, album and position, and so keeps the table invariant. |
| `Api.TraversalIgnoresLikes` | api.py:97-122 | The cyclic successor and the first image of an album do not depend on likes or update times, so the successor read before the like is still the successor after it. |
| `Api.Store.GetFirstImageInAlbum` | api.py:72-86 | 404 exactly when the album has no images, otherwise the album's record with the smallest position. |
| `Api.Store.LikeImage` | api.py:97-122 | An unknown id gives 404 and no change. Otherwise exactly that record is liked at `now`, and the reply is its cyclic successor in the same album, read after the update. |
| `Api.Store.SkipImage` | api.py:130-147 | 404 exactly for an unknown id, otherwise the cyclic successor, with no change to the store. |
| `Api.Store.LikeImageV2` | api.py:159-178 | The weighted pick excluding `id` is drawn from the likes before the update. An unknown id fails with 500 and no change. Otherwise exactly that record is liked at `now`, and the reply is the picked record, never `id` itself, or `null`. |
| `Api.Store.SkipImageV2` | api.py:186-201 | The weighted pick excluding `id`, or `null`, with no change to the store. |
| `Api.Store.TopImages` | api.py:223-240 | The dashboard's `top` and `last` lists, as `Dashboard.Top` and `Dashboard.Last` state them. |

## Left out

- I/O, FastAPI/uvicorn wiring, sessions, `flush`/`commit` and JSON encoding are not modelled. Handlers return a `Reply` value: a record, `null`, 404 or 500.
- Concurrency is not modelled: the model is sequential. Two overlapping likes on the same record can lose an update in the real service; the model does not capture that.
- `ABS(RANDOM())` is the parameter `r: nat`. The int64 overflow of `ABS` on the smallest 64-bit value is not modelled.
- `datetime.now()` is the parameter `now`. Nothing is assumed about its monotonicity.
- The `secret` check of the dashboard (api.py:217) is not modelled. `TopImages` is the handler past that check.
- The interactive `click` loops of both explore scripts (explore_images.py:78-127, explore_images_v2.py:41-91) are not modelled beyond their cycle-return test. So is the random `question_generator` prompt (explore_images.py:50-75).
- `download_images.py`, `vk_api.py`, `print_dashboard.py`, `print_images.py`, `db.py` and `settings.py` are not modelled: they are network ingestion, terminal rendering, the engine set-up and configuration. The declared schema in `db.py` lacks `id`, `album_position` and `last_update`, so the record follows the queries instead.
- `Dashboard.TopBySpec`: SQLite's order among records with equal keys is unspecified. The model fixes one order, by insertion. Its contract states only what holds for every tie order.
- SQLite may evaluate `RANDOM()` in the `r` subquery once per row. The model assumes one value per query, the plan the query is written for.
- The record fields the selection never reads (`url`, `author_id`, `author_name`, `path`, the VK `image_id`) are not represented. Replies carry the modelled fields only.
