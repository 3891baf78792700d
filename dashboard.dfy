/**
 * The dashboard queries: all records ordered by a key, descending, cut to a
 * `LIMIT`. The top list orders by `likes_count`; the recent list keeps the
 * records with a `last_update` and orders by it.
 */
module Dashboard {
  import opened Wrappers
  import opened Images

  /** `s` is in non-increasing `key` order: no record has a greater key than the one before it. */
  predicate SortedDesc(s: seq<Image>, key: Image -> int)
  {
    forall i :: 0 < i < |s| ==> key(s[i - 1]) >= key(s[i])
  }

  /** In a sorted list every record's key is at least that of every later record. */
  lemma {:induction false} SortedPairwise(s: seq<Image>, key: Image -> int, i: nat, j: nat)
    requires SortedDesc(s, key)
    requires i <= j < |s|
    ensures key(s[i]) >= key(s[j])
    decreases j - i
  {
    if i < j {
      SortedPairwise(s, key, i + 1, j);
    }
  }

  /** `x` placed in front of the first element of `s` with a smaller key. */
  function InsertDesc(x: Image, s: seq<Image>, key: Image -> int): (r: seq<Image>)
    ensures |r| == |s| + 1
    ensures r[0] == x || (|s| > 0 && r[0] == s[0])
  {
    if |s| == 0 then [x]
    else if key(x) >= key(s[0]) then [x] + s
    else [s[0]] + InsertDesc(x, s[1..], key)
  }

  /** Inserting adds exactly the one record. */
  lemma {:induction false} InsertDescPermutes(x: Image, s: seq<Image>, key: Image -> int)
    ensures multiset(InsertDesc(x, s, key)) == multiset(s) + multiset{x}
  {
    if |s| > 0 && key(x) < key(s[0]) {
      InsertDescPermutes(x, s[1..], key);
      assert s == [s[0]] + s[1..];
    }
  }

  /** Inserting into a sorted list keeps it sorted. */
  lemma {:induction false} InsertDescSorted(x: Image, s: seq<Image>, key: Image -> int)
    requires SortedDesc(s, key)
    ensures SortedDesc(InsertDesc(x, s, key), key)
  {
    var r := InsertDesc(x, s, key);
    if |s| > 0 && key(x) < key(s[0]) {
      var rest := InsertDesc(x, s[1..], key);
      assert SortedDesc(s[1..], key) by {
        forall i | 0 < i < |s[1..]|
          ensures key(s[1..][i - 1]) >= key(s[1..][i])
        {
          assert s[1..][i - 1] == s[i] && s[1..][i] == s[i + 1];
        }
      }
      InsertDescSorted(x, s[1..], key);
      assert r == [s[0]] + rest;
      forall i | 0 < i < |r|
        ensures key(r[i - 1]) >= key(r[i])
      {
        if i == 1 {
          assert r[1] == rest[0];
          if |s| > 1 && rest[0] == s[1..][0] {
            assert key(s[0]) >= key(s[1]);
          }
        } else {
          assert r[i - 1] == rest[i - 2] && r[i] == rest[i - 1];
        }
      }
    } else if |s| > 0 {
      assert r == [x] + s;
      forall i | 0 < i < |r|
        ensures key(r[i - 1]) >= key(r[i])
      {
        if i > 1 {
          assert r[i - 1] == s[i - 2] && r[i] == s[i - 1];
        }
      }
    }
  }

  /** `ORDER BY key DESC`: the records of `s` sorted by insertion. */
  function SortDesc(s: seq<Image>, key: Image -> int): (r: seq<Image>)
    ensures |r| == |s|
  {
    if |s| == 0 then [] else InsertDesc(s[0], SortDesc(s[1..], key), key)
  }

  /** Sorting puts the records in non-increasing key order and neither adds nor drops one. */
  lemma {:induction false} SortDescSpec(s: seq<Image>, key: Image -> int)
    ensures SortedDesc(SortDesc(s, key), key)
    ensures multiset(SortDesc(s, key)) == multiset(s)
  {
    if |s| > 0 {
      SortDescSpec(s[1..], key);
      InsertDescSorted(s[0], SortDesc(s[1..], key), key);
      InsertDescPermutes(s[0], SortDesc(s[1..], key), key);
      assert s == [s[0]] + s[1..];
    }
  }

  /** The number of rows `LIMIT n` keeps out of `len`; a negative limit keeps them all. */
  function Limit(n: int, len: nat): (m: nat)
    ensures m <= len
    ensures n >= 0 ==> m <= n
    ensures m == len || m == n
  {
    if n < 0 || n > len then len else n
  }

  /** `ORDER BY key DESC LIMIT n`. */
  function TopBy(s: seq<Image>, n: int, key: Image -> int): (top: seq<Image>)
    ensures |top| == Limit(n, |s|)
  {
    SortDesc(s, key)[..Limit(n, |s|)]
  }

  /**
   * The top list holds `min(n, |s|)` records (all of them for a negative
   * `n`) in non-increasing key order; together with the records left out it
   * is exactly `s`, and no record left out has a greater key than one listed.
   */
  lemma TopBySpec(s: seq<Image>, n: int, key: Image -> int) returns (rest: seq<Image>)
    ensures |TopBy(s, n, key)| == Limit(n, |s|)
    ensures SortedDesc(TopBy(s, n, key), key)
    ensures multiset(TopBy(s, n, key)) + multiset(rest) == multiset(s)
    ensures forall i, j :: 0 <= i < |TopBy(s, n, key)| && 0 <= j < |rest| ==>
      key(rest[j]) <= key(TopBy(s, n, key)[i])
  {
    var sorted := SortDesc(s, key);
    var m := Limit(n, |s|);
    SortDescSpec(s, key);
    rest := sorted[m..];
    TopByParts(sorted, m, key);
  }

  lemma TopByParts(sorted: seq<Image>, m: nat, key: Image -> int)
    requires SortedDesc(sorted, key)
    requires m <= |sorted|
    ensures SortedDesc(sorted[..m], key)
    ensures multiset(sorted[..m]) + multiset(sorted[m..]) == multiset(sorted)
    ensures forall i, j :: 0 <= i < m && 0 <= j < |sorted| - m ==> key(sorted[m..][j]) <= key(sorted[..m][i])
  {
    assert sorted == sorted[..m] + sorted[m..];
    forall i, j | 0 <= i < m && 0 <= j < |sorted| - m
      ensures key(sorted[m..][j]) <= key(sorted[..m][i])
    {
      SortedPairwise(sorted, key, i, m + j);
    }
  }

  /** The `likes_count` of a record. */
  function Likes(x: Image): int
  {
    x.likesCount
  }

  /** The `last_update` of a record, read as 0 when it has none (only records with one are ordered by it). */
  function Updated(x: Image): int
  {
    match x.lastUpdate
    case Some(v) => v
    case None => 0
  }

  /** `WHERE last_update IS NOT NULL`, in table order. */
  function Stamped(s: seq<Image>): (r: seq<Image>)
    ensures |r| <= |s|
  {
    if |s| == 0 then []
    else (if s[0].lastUpdate.Some? then [s[0]] else []) + Stamped(s[1..])
  }

  /** Exactly the records with a `last_update` pass the filter, each as often as in `s`. */
  lemma {:induction false} StampedSpec(s: seq<Image>)
    ensures forall x :: x in multiset(Stamped(s)) ==> x.lastUpdate.Some?
    ensures forall x: Image :: x.lastUpdate.Some? ==> multiset(Stamped(s))[x] == multiset(s)[x]
    ensures multiset(Stamped(s)) <= multiset(s)
  {
    forall x: Image
      ensures multiset(Stamped(s))[x] == if x.lastUpdate.Some? then multiset(s)[x] else 0
    {
      StampedCount(s, x);
    }
  }

  /** A record occurs in the filtered list as often as in `s` when it has a `last_update`, otherwise never. */
  lemma {:induction false} StampedCount(s: seq<Image>, x: Image)
    ensures multiset(Stamped(s))[x] == if x.lastUpdate.Some? then multiset(s)[x] else 0
  {
    if |s| > 0 {
      StampedCount(s[1..], x);
      assert s == [s[0]] + s[1..];
    }
  }

  /** `top`: `ORDER BY likes_count DESC LIMIT n`. */
  function Top(t: Table, n: int): (top: seq<Image>)
    ensures |top| == Limit(n, |t|)
  {
    TopBy(t, n, Likes)
  }

  /** `last`: `ORDER BY last_update DESC WHERE last_update IS NOT NULL LIMIT k`. */
  function Last(t: Table, k: int): (last: seq<Image>)
    ensures |last| <= |t| && (k >= 0 ==> |last| <= k)
  {
    TopBy(Stamped(t), k, Updated)
  }

  /**
   * The top list has at most `n` records (`min(n, |t|)`; every record for a
   * negative `n`), in non-increasing `likes_count` order; with the records
   * left out it makes up the table, and none of those has more likes than
   * a listed one.
   */
  lemma TopSpec(t: Table, n: int) returns (rest: seq<Image>)
    ensures |Top(t, n)| == Limit(n, |t|)
    ensures SortedDesc(Top(t, n), Likes)
    ensures multiset(Top(t, n)) + multiset(rest) == multiset(t)
    ensures forall i, j :: 0 <= i < |Top(t, n)| && 0 <= j < |rest| ==>
      rest[j].likesCount <= Top(t, n)[i].likesCount
  {
    rest := TopBySpec(t, n, Likes);
    forall i, j | 0 <= i < |Top(t, n)| && 0 <= j < |rest|
      ensures rest[j].likesCount <= Top(t, n)[i].likesCount
    {
      assert Likes(rest[j]) <= Likes(Top(t, n)[i]);
    }
  }

  /**
   * The recent list has at most `k` records (`min(k, ...)` of those with a
   * `last_update`), all with a `last_update`, in non-increasing `last_update`
   * order; with the stamped records left out it makes up the stamped
   * records, none of which was updated later than a listed one.
   */
  lemma LastSpec(t: Table, k: int) returns (rest: seq<Image>)
    ensures |Last(t, k)| == Limit(k, |Stamped(t)|)
    ensures forall i :: 0 <= i < |Last(t, k)| ==> Last(t, k)[i].lastUpdate.Some?
    ensures SortedDesc(Last(t, k), Updated)
    ensures multiset(Last(t, k)) + multiset(rest) == multiset(Stamped(t))
    ensures forall i, j :: 0 <= i < |Last(t, k)| && 0 <= j < |rest| ==>
      Updated(rest[j]) <= Updated(Last(t, k)[i])
  {
    rest := TopBySpec(Stamped(t), k, Updated);
    StampedSpec(t);
    forall i | 0 <= i < |Last(t, k)|
      ensures Last(t, k)[i].lastUpdate.Some?
    {
      assert Last(t, k)[i] in multiset(Last(t, k));
    }
  }
}
