/**
 * The favourite-weighted random pick: every image other than the excluded
 * one is a candidate, weighted `likes_count + 1`, except the favourite,
 * which weighs as much as all other candidates together. A random
 * non-negative `r` is reduced modulo the total weight, and the first
 * candidate in id order whose running weight exceeds it is picked.
 */
module WeightedPick {
  import opened Wrappers
  import opened Images

  // ---------------------------------------------------------------------
  // Candidates: `WHERE id <> :id`.

  /** The rows whose id differs from `exclude`, in table order. */
  function Candidates(t: Table, exclude: int): (c: Table)
    ensures |c| <= |t|
    ensures forall m :: 0 <= m < |c| ==> c[m].id != exclude
  {
    Kept(t, exclude, |t|)
  }

  /** `Candidates` over the first `n` rows. */
  function Kept(t: Table, exclude: int, n: nat): (c: Table)
    requires n <= |t|
    ensures |c| <= n
    ensures forall m :: 0 <= m < |c| ==> c[m].id != exclude
  {
    if n == 0 then []
    else Kept(t, exclude, n - 1) + (if t[n - 1].id == exclude then [] else [t[n - 1]])
  }

  /** `x` is one of the first `n` rows. */
  predicate AmongFirst(t: Table, n: nat, x: Image)
  {
    exists j :: 0 <= j < n && j < |t| && t[j] == x
  }

  lemma {:induction false} KeptSpec(t: Table, exclude: int, n: nat)
    requires n <= |t|
    ensures forall m :: 0 <= m < |Kept(t, exclude, n)| ==>
      Kept(t, exclude, n)[m].id != exclude && AmongFirst(t, n, Kept(t, exclude, n)[m])
    ensures forall j :: 0 <= j < n && t[j].id != exclude ==> t[j] in Kept(t, exclude, n)
  {
    if n > 0 {
      KeptSpec(t, exclude, n - 1);
      var s := Kept(t, exclude, n - 1);
      var c := Kept(t, exclude, n);
      forall m | 0 <= m < |c|
        ensures c[m].id != exclude && AmongFirst(t, n, c[m])
      {
        if m < |s| {
          assert c[m] == s[m];
          assert AmongFirst(t, n - 1, s[m]);
        } else {
          assert c[m] == t[n - 1];
        }
      }
    }
  }

  /**
   * The candidates are exactly the images whose id differs from the
   * excluded one.
   */
  lemma CandidatesSpec(t: Table, exclude: int)
    ensures forall x :: x in Candidates(t, exclude) ==> x in t && x.id != exclude
    ensures forall x :: x in t && x.id != exclude ==> x in Candidates(t, exclude)
  {
    KeptSpec(t, exclude, |t|);
  }

  lemma {:induction false} KeptAscending(t: Table, exclude: int, n: nat)
    requires IdsAscending(t)
    requires n <= |t|
    ensures IdsAscending(Kept(t, exclude, n))
  {
    if n > 0 {
      KeptAscending(t, exclude, n - 1);
      KeptSpec(t, exclude, n - 1);
      var s := Kept(t, exclude, n - 1);
      var c := Kept(t, exclude, n);
      forall i: nat, j: nat | i < j < |c|
        ensures KeysInOrder(c, i, j)
      {
        if j < |s| {
          assert KeysInOrder(s, i, j);
        } else {
          assert AmongFirst(t, n - 1, s[i]);
          var w :| 0 <= w < n - 1 && t[w] == s[i];
          assert KeysInOrder(t, w, n - 1);
        }
      }
    }
  }

  /** Filtering keeps the id order of the table. */
  lemma CandidatesAscending(t: Table, exclude: int)
    requires IdsAscending(t)
    ensures IdsAscending(Candidates(t, exclude))
  {
    KeptAscending(t, exclude, |t|);
  }

  /** An id that no image has (the default `-1`) excludes nothing. */
  lemma {:induction false} ExcludeAbsent(t: Table, exclude: int, n: nat)
    requires n <= |t|
    requires forall i :: 0 <= i < |t| ==> t[i].id != exclude
    ensures Kept(t, exclude, n) == t[..n]
  {
    if n > 0 {
      ExcludeAbsent(t, exclude, n - 1);
      assert t[..n] == t[..n - 1] + [t[n - 1]];
    }
  }

  /** With the default `-1` (an id no image has), the candidates are the whole table. */
  lemma DefaultExcludesNothing(t: Table, exclude: int)
    requires forall i :: 0 <= i < |t| ==> t[i].id != exclude
    ensures Candidates(t, exclude) == t
  {
    ExcludeAbsent(t, exclude, |t|);
    assert t[..|t|] == t;
  }

  // ---------------------------------------------------------------------
  // Weights: `CASE WHEN id == :favourite_id THEN ... ELSE likes_count + 1 END`.

  /** The plain weight `likes_count + 1` of an image. */
  function BaseWeight(x: Image): nat
  {
    x.likesCount + 1
  }

  /** `sum(likes_count + 1)` over a list of images. */
  function SumBase(s: Table): nat
  {
    if |s| == 0 then 0 else SumBase(s[..|s| - 1]) + BaseWeight(s[|s| - 1])
  }

  lemma {:induction false} SumBaseAppend(a: Table, b: Table)
    ensures SumBase(a + b) == SumBase(a) + SumBase(b)
  {
    if |b| > 0 {
      assert (a + b)[..|a + b| - 1] == a + b[..|b| - 1];
      SumBaseAppend(a, b[..|b| - 1]);
    } else {
      assert a + b == a;
    }
  }

  /** The weight of the candidate at index `i`; `sum(...) over ()` ranges over all candidates. */
  function Weight(c: Table, favourite: int, i: nat): int
    requires i < |c|
  {
    if c[i].id == favourite then SumBase(c) - BaseWeight(c[i]) else BaseWeight(c[i])
  }

  /** The column `p`, one weight per candidate. */
  function Weights(c: Table, favourite: int): (ws: seq<int>)
    ensures |ws| == |c|
  {
    seq(|c|, i requires 0 <= i < |c| => Weight(c, favourite, i))
  }

  /** The sum of the first `k` weights. */
  function PrefixSum(ws: seq<int>, k: nat): int
    requires k <= |ws|
  {
    if k == 0 then 0 else PrefixSum(ws, k - 1) + ws[k - 1]
  }

  /** `sum(p) over ()`. */
  function Total(ws: seq<int>): (total: int)
  {
    PrefixSum(ws, |ws|)
  }

  /** `sum(p) over (ORDER BY id)` at row `k`: the weights up to and including row `k`. */
  function Running(ws: seq<int>, k: nat): int
    requires k < |ws|
  {
    PrefixSum(ws, k + 1)
  }

  /** Every weight other than the favourite's is `likes_count + 1`, so at least 1; none is negative. */
  lemma WeightsNonNegative(c: Table, favourite: int)
    ensures forall i :: 0 <= i < |c| && c[i].id != favourite ==>
      Weights(c, favourite)[i] == c[i].likesCount + 1 >= 1
    ensures forall i :: 0 <= i < |c| ==> Weights(c, favourite)[i] >= 0
  {
    forall i | 0 <= i < |c| && c[i].id == favourite
      ensures Weights(c, favourite)[i] >= 0
    {
      FavouriteWeight(c, favourite, i);
    }
  }

  /** The favourite's weight is the plain weight of all other candidates together. */
  lemma FavouriteWeight(c: Table, favourite: int, i: nat)
    requires i < |c| && c[i].id == favourite
    ensures Weights(c, favourite)[i] == SumBase(c[..i] + c[i + 1..])
  {
    assert c == c[..i] + ([c[i]] + c[i + 1..]);
    SumBaseAppend(c[..i], [c[i]] + c[i + 1..]);
    SumBaseAppend([c[i]], c[i + 1..]);
    SumBaseAppend(c[..i], c[i + 1..]);
    assert SumBase([c[i]]) == BaseWeight(c[i]) by {
      assert [c[i]][..0] == [];
    }
  }

  /**
   * With the favourite among the candidates (ids unique), the weights sum to
   * the plain weights plus what the favourite adds over its plain weight.
   */
  lemma {:induction false} WeightsSumWithFavourite(c: Table, favourite: int, f: nat, n: nat)
    requires IdsAscending(c)
    requires f < |c| && c[f].id == favourite
    requires n <= |c|
    ensures PrefixSum(Weights(c, favourite), n) ==
      SumBase(c[..n]) + (if f < n then Weights(c, favourite)[f] - BaseWeight(c[f]) else 0)
  {
    if n > 0 {
      WeightsSumWithFavourite(c, favourite, f, n - 1);
      assert c[..n][..n - 1] == c[..n - 1];
      if n - 1 != f {
        KeysDistinct(c, n - 1, f);
      }
    }
  }

  /**
   * When the favourite is a candidate it carries exactly half of the total
   * weight; it weighs 0 when it is the only candidate.
   */
  lemma FavouriteHalf(c: Table, favourite: int, f: nat)
    requires IdsAscending(c)
    requires f < |c| && c[f].id == favourite
    ensures Total(Weights(c, favourite)) == 2 * Weights(c, favourite)[f]
    ensures |c| == 1 ==> Weights(c, favourite)[f] == 0
  {
    WeightsSumWithFavourite(c, favourite, f, |c|);
    assert c[..|c|] == c;
    FavouriteWeight(c, favourite, f);
    if |c| == 1 {
      assert c[..f] + c[f + 1..] == [];
    }
  }

  /** Without the favourite among the candidates, every weight is the plain `likes_count + 1`. */
  lemma FavouriteAbsent(t: Table, favourite: int, exclude: int)
    requires favourite == exclude || forall i :: 0 <= i < |t| ==> t[i].id != favourite
    ensures var c := Candidates(t, exclude);
      forall i :: 0 <= i < |c| ==> Weights(c, favourite)[i] == BaseWeight(c[i])
  {
    var c := Candidates(t, exclude);
    CandidatesSpec(t, exclude);
    forall i | 0 <= i < |c|
      ensures c[i].id != favourite
    {
      assert c[i] in c;
    }
  }

  lemma {:induction false} PrefixSumMonotone(ws: seq<int>, i: nat, j: nat)
    requires forall m :: 0 <= m < |ws| ==> ws[m] >= 0
    requires i <= j <= |ws|
    ensures PrefixSum(ws, i) <= PrefixSum(ws, j)
  {
    if i < j {
      PrefixSumMonotone(ws, i, j - 1);
    }
  }

  // ---------------------------------------------------------------------
  // The pick: `WHERE running > r % total ORDER BY id LIMIT 1`.

  /** The first index, from `k` on, whose running weight exceeds `target`. */
  function FirstAbove(ws: seq<int>, target: int, k: nat): (r: Option<nat>)
    requires k <= |ws|
    ensures r.Some? ==> k <= r.value < |ws|
    decreases |ws| - k
  {
    if k == |ws| then None
    else if Running(ws, k) > target then Some(k)
    else FirstAbove(ws, target, k + 1)
  }

  lemma {:induction false} FirstAboveSpec(ws: seq<int>, target: int, k: nat)
    requires k <= |ws|
    ensures var r := FirstAbove(ws, target, k);
      && (r.None? <==> forall j :: k <= j < |ws| ==> Running(ws, j) <= target)
      && (r.Some? ==> Running(ws, r.value) > target)
      && (r.Some? ==> forall j :: k <= j < r.value ==> Running(ws, j) <= target)
    decreases |ws| - k
  {
    if k < |ws| {
      FirstAboveSpec(ws, target, k + 1);
    }
  }

  /**
   * `next_image(favourite_id, id)` with `ABS(RANDOM())` given as `r`: the id
   * of the picked candidate, or `None` when no row qualifies. A zero total
   * makes `r % total` NULL in SQL, so no row qualifies then.
   */
  function NextImage(t: Table, favourite: int, exclude: int, r: nat): (pick: Option<int>)
    ensures pick.Some? ==> pick.value != exclude
  {
    var c := Candidates(t, exclude);
    var ws := Weights(c, favourite);
    var total := Total(ws);
    if total == 0 then None
    else match FirstAbove(ws, r % total, 0)
      case None => None
      case Some(k) => Some(c[k].id)
  }

  /** Weights are never negative, so the total is the sum of non-negative parts. */
  lemma TotalBounds(c: Table, favourite: int, k: nat)
    requires k < |c|
    ensures 0 <= PrefixSum(Weights(c, favourite), k)
    ensures PrefixSum(Weights(c, favourite), k) + Weights(c, favourite)[k] <= Total(Weights(c, favourite))
  {
    WeightsNonNegative(c, favourite);
    var ws := Weights(c, favourite);
    PrefixSumMonotone(ws, 0, k);
    PrefixSumMonotone(ws, k + 1, |ws|);
  }

  /**
   * Whenever the total is positive a candidate is picked: the one at the
   * unique index `k` whose running weight is the first to exceed
   * `r % total`, i.e. `PrefixSum(k) <= r % total < PrefixSum(k + 1)`.
   */
  lemma PickSpec(t: Table, favourite: int, exclude: int, r: nat) returns (k: nat)
    requires Total(Weights(Candidates(t, exclude), favourite)) > 0
    ensures var c := Candidates(t, exclude);
      var ws := Weights(c, favourite);
      && k < |c|
      && NextImage(t, favourite, exclude, r) == Some(c[k].id)
      && PrefixSum(ws, k) <= r % Total(ws) < PrefixSum(ws, k + 1)
      && forall j :: 0 <= j < k ==> Running(ws, j) <= r % Total(ws)
  {
    var c := Candidates(t, exclude);
    var ws := Weights(c, favourite);
    var target := r % Total(ws);
    FirstAboveSpec(ws, target, 0);
    assert Running(ws, |ws| - 1) == Total(ws);
    k := FirstAbove(ws, target, 0).value;
    if k > 0 {
      assert Running(ws, k - 1) <= target;
    }
  }

  /**
   * In a table listed by ascending id, the picked image has the smallest id
   * among the candidates whose running weight exceeds `r % total`.
   */
  lemma PickSmallestId(t: Table, favourite: int, exclude: int, r: nat, j: nat)
    requires IdsAscending(t)
    requires Total(Weights(Candidates(t, exclude), favourite)) > 0
    requires j < |Candidates(t, exclude)|
    requires var ws := Weights(Candidates(t, exclude), favourite);
      Running(ws, j) > r % Total(ws)
    ensures NextImage(t, favourite, exclude, r).Some?
    ensures NextImage(t, favourite, exclude, r).value <= Candidates(t, exclude)[j].id
  {
    var c := Candidates(t, exclude);
    var k := PickSpec(t, favourite, exclude, r);
    CandidatesAscending(t, exclude);
    if k != j {
      assert k < j;
      assert KeysInOrder(c, k, j);
    }
  }

  /** At most one index brackets a target between its prefix sum and its running sum. */
  lemma PickUnique(ws: seq<int>, target: int, k1: nat, k2: nat)
    requires forall m :: 0 <= m < |ws| ==> ws[m] >= 0
    requires k1 < |ws| && k2 < |ws|
    requires PrefixSum(ws, k1) <= target < PrefixSum(ws, k1 + 1)
    requires PrefixSum(ws, k2) <= target < PrefixSum(ws, k2 + 1)
    ensures k1 == k2
  {
    if k1 < k2 {
      PrefixSumMonotone(ws, k1 + 1, k2);
    } else if k2 < k1 {
      PrefixSumMonotone(ws, k2 + 1, k1);
    }
  }

  /** The picked id is never the excluded one, and it is the id of an image of the table. */
  lemma PickExcludes(t: Table, favourite: int, exclude: int, r: nat)
    ensures NextImage(t, favourite, exclude, r).Some? ==>
      NextImage(t, favourite, exclude, r).value != exclude &&
      exists i :: 0 <= i < |t| && t[i].id == NextImage(t, favourite, exclude, r).value
  {
    var c := Candidates(t, exclude);
    TotalNonNegative(c, favourite);
    if NextImage(t, favourite, exclude, r).Some? {
      var k := PickSpec(t, favourite, exclude, r);
      CandidatesSpec(t, exclude);
      assert c[k] in c;
    }
  }

  /** The total weight is never negative. */
  lemma TotalNonNegative(c: Table, favourite: int)
    ensures Total(Weights(c, favourite)) >= 0
  {
    WeightsNonNegative(c, favourite);
    PrefixSumMonotone(Weights(c, favourite), 0, |c|);
  }

  /** An image that is neither excluded nor the favourite makes the total positive. */
  lemma TotalPositive(t: Table, favourite: int, exclude: int, i: nat)
    requires i < |t| && t[i].id != exclude && t[i].id != favourite
    ensures Total(Weights(Candidates(t, exclude), favourite)) > 0
  {
    var c := Candidates(t, exclude);
    CandidatesSpec(t, exclude);
    assert t[i] in t;
    var m :| 0 <= m < |c| && c[m] == t[i];
    WeightsNonNegative(c, favourite);
    TotalBounds(c, favourite, m);
  }

  /** When every image is the excluded one or the favourite, the total is 0. */
  lemma TotalZero(t: Table, favourite: int, exclude: int)
    requires IdsAscending(t)
    requires forall i :: 0 <= i < |t| ==> t[i].id == exclude || t[i].id == favourite
    ensures Total(Weights(Candidates(t, exclude), favourite)) == 0
  {
    var c := Candidates(t, exclude);
    CandidatesSpec(t, exclude);
    CandidatesAscending(t, exclude);
    if |c| > 0 {
      assert c[0] in c && c[0].id == favourite;
      if |c| > 1 {
        assert c[1] in c;
        KeysDistinct(c, 0, 1);
      }
      FavouriteHalf(c, favourite, 0);
    }
  }

  /** Nothing is picked exactly when the total weight is 0. */
  lemma NoPickIffZero(t: Table, favourite: int, exclude: int, r: nat)
    ensures NextImage(t, favourite, exclude, r).None? <==> Total(Weights(Candidates(t, exclude), favourite)) == 0
  {
    TotalNonNegative(Candidates(t, exclude), favourite);
    if Total(Weights(Candidates(t, exclude), favourite)) > 0 {
      var k := PickSpec(t, favourite, exclude, r);
    }
  }

  /**
   * No image is picked exactly when every image is either the excluded one
   * or the favourite (no candidates, or the favourite alone, weighing 0).
   */
  lemma NoPick(t: Table, favourite: int, exclude: int, r: nat)
    requires IdsAscending(t)
    ensures NextImage(t, favourite, exclude, r).None? <==>
      forall i :: 0 <= i < |t| ==> t[i].id == exclude || t[i].id == favourite
  {
    NoPickIffZero(t, favourite, exclude, r);
    if forall i :: 0 <= i < |t| ==> t[i].id == exclude || t[i].id == favourite {
      TotalZero(t, favourite, exclude);
    } else {
      var i :| 0 <= i < |t| && t[i].id != exclude && t[i].id != favourite;
      TotalPositive(t, favourite, exclude, i);
    }
  }

  /** The residues `lo, lo + 1, ..., hi - 1`. */
  function Interval(lo: nat, hi: nat): (s: set<nat>)
    ensures forall x :: x in s <==> lo <= x < hi
    ensures |s| == if lo <= hi then hi - lo else 0
    decreases hi - lo
  {
    if lo >= hi then {} else {lo} + Interval(lo + 1, hi)
  }

  /** The targets in `[0, total)` for which index `k` is the first to be exceeded. */
  function TargetsOf(ws: seq<int>, k: nat): set<nat>
  {
    set x: nat | x < Total(ws) && FirstAbove(ws, x, 0) == Some(k)
  }

  /** Index `k` is the first to be exceeded for exactly `ws[k]` targets in `[0, total)`. */
  lemma IndexResidues(ws: seq<int>, k: nat)
    requires forall m :: 0 <= m < |ws| ==> ws[m] >= 0
    requires k < |ws|
    ensures |TargetsOf(ws, k)| == ws[k]
  {
    var lo, hi := PrefixSum(ws, k), PrefixSum(ws, k + 1);
    PrefixSumMonotone(ws, 0, k);
    PrefixSumMonotone(ws, k + 1, |ws|);
    var picks := TargetsOf(ws, k);
    forall x: nat
      ensures x in picks <==> lo <= x < hi
    {
      FirstAboveSpec(ws, x, 0);
      var m := FirstAbove(ws, x, 0);
      if x < Total(ws) {
        assert Running(ws, |ws| - 1) > x;
        var j := m.value;
        if j > 0 {
          assert Running(ws, j - 1) <= x;
        }
        if lo <= x < hi {
          PickUnique(ws, x, j, k);
        }
      } else if m == Some(k) {
        assert Running(ws, k) > x;
      }
    }
    assert picks == Interval(lo, hi);
  }

  /** The residues `r` in `[0, total)` for which `NextImage` picks `id`. */
  function Selecting(t: Table, favourite: int, exclude: int, id: int): set<nat>
  {
    set r: nat | r < Total(Weights(Candidates(t, exclude), favourite)) && NextImage(t, favourite, exclude, r) == Some(id)
  }

  /**
   * Over all residues `r` in `[0, total)`, candidate `k` is picked for
   * exactly as many as its weight: the pick is a weighted sample.
   */
  lemma ResidueCount(t: Table, favourite: int, exclude: int, k: nat)
    requires IdsAscending(t)
    requires k < |Candidates(t, exclude)|
    ensures |Selecting(t, favourite, exclude, Candidates(t, exclude)[k].id)| ==
      Weights(Candidates(t, exclude), favourite)[k]
  {
    var c := Candidates(t, exclude);
    var ws := Weights(c, favourite);
    var total := Total(ws);
    WeightsNonNegative(c, favourite);
    CandidatesAscending(t, exclude);
    var picks := Selecting(t, favourite, exclude, c[k].id);
    var byIndex := TargetsOf(ws, k);
    forall r: nat
      ensures r in picks <==> r in byIndex
    {
      if r < total {
        assert r % total == r;
        var m := FirstAbove(ws, r, 0);
        if m.Some? && m.value != k {
          KeysDistinct(c, m.value, k);
        }
      }
    }
    assert picks == byIndex;
    IndexResidues(ws, k);
  }
}
