/**
 * The offset arithmetic of the list handler: `skip((page - 1) * limit)`,
 * `limit(limit)` on the collection in natural order, and
 * `totalPages = Math.ceil(totalUsers / limit)`.
 */
module Pagination {

  function Min(a: int, b: int): int {
    if a <= b then a else b
  }

  /** The items `skip(start).limit(limit)` returns. */
  function Window<T>(items: seq<T>, start: nat, limit: nat): (r: seq<T>)
    ensures |r| <= limit
    ensures start >= |items| ==> r == []
    ensures start + limit <= |items| ==> |r| == limit
    ensures forall i :: 0 <= i < |r| ==> start + i < |items| && r[i] == items[start + i]
  {
    if start >= |items| then [] else items[start..Min(start + limit, |items|)]
  }

  /** The items `find().skip((page - 1) * limit).limit(limit)` returns. */
  function Page<T>(items: seq<T>, page: nat, limit: nat): (r: seq<T>)
    requires page >= 1 && limit >= 1
    ensures |r| <= limit
    ensures (page - 1) * limit >= |items| ==> r == []
    ensures (page - 1) * limit + limit <= |items| ==> |r| == limit
    ensures forall i :: 0 <= i < |r| ==>
      (page - 1) * limit + i < |items| && r[i] == items[(page - 1) * limit + i]
  {
    Window(items, (page - 1) * limit, limit)
  }

  /** `Math.ceil(total / limit)`: the fewest pages of `limit` items that hold `total` items. */
  function TotalPages(total: nat, limit: nat): (p: nat)
    requires limit >= 1
    ensures p * limit >= total
    ensures p > 0 ==> (p - 1) * limit < total
  {
    if total == 0 then 0 else 1 + TotalPages(if total <= limit then 0 else total - limit, limit)
  }

  /** Pages 1 to `n`, one after the other. */
  function PagesUpTo<T>(items: seq<T>, limit: nat, n: nat): seq<T>
    requires limit >= 1
  {
    if n == 0 then [] else PagesUpTo(items, limit, n - 1) + Page(items, n, limit)
  }

  lemma {:induction false} PagesUpToPrefix<T>(items: seq<T>, limit: nat, n: nat)
    requires limit >= 1
    ensures PagesUpTo(items, limit, n) == items[..Min(n * limit, |items|)]
  {
    if n > 0 {
      PagesUpToPrefix(items, limit, n - 1);
      var start := (n - 1) * limit;
      MulSucc(n - 1, limit);
      assert Page(items, n, limit) == Window(items, start, limit);
      WindowAfterPrefix(items, start, limit);
    }
  }

  /** The items before `start` followed by the window at `start` are the items before `start + limit`. */
  lemma WindowAfterPrefix<T>(items: seq<T>, start: nat, limit: nat)
    ensures items[..Min(start, |items|)] + Window(items, start, limit) == items[..Min(start + limit, |items|)]
  {
    if start < |items| {
      assert items[..start] + items[start..Min(start + limit, |items|)] == items[..Min(start + limit, |items|)];
    }
  }

  lemma MulSucc(a: nat, c: nat)
    ensures (a + 1) * c == a * c + c
  {
  }

  /** Pages 1 to `totalPages` together list every item once, in order. */
  lemma PagesCoverAll<T>(items: seq<T>, limit: nat)
    requires limit >= 1
    ensures PagesUpTo(items, limit, TotalPages(|items|, limit)) == items
  {
    var p := TotalPages(|items|, limit);
    PagesUpToPrefix(items, limit, p);
    assert Min(p * limit, |items|) == |items|;
  }

  lemma MulMonotone(a: nat, b: nat, c: nat)
    requires a <= b
    ensures a * c <= b * c
  {
  }

  /** A page past the last one is empty. */
  lemma BeyondLastPage<T>(items: seq<T>, page: nat, limit: nat)
    requires limit >= 1 && page >= 1
    ensures page > TotalPages(|items|, limit) ==> Page(items, page, limit) == []
  {
    var p := TotalPages(|items|, limit);
    if page > p {
      MulMonotone(p, page - 1, limit);
    }
  }

  /** Twelve items five per page: three pages of 5, 5 and 2 items, and nothing on page 4. */
  lemma TwelveByFive<T>(items: seq<T>)
    requires |items| == 12
    ensures TotalPages(12, 5) == 3
    ensures |Page(items, 1, 5)| == 5 && |Page(items, 2, 5)| == 5 && |Page(items, 3, 5)| == 2
    ensures Page(items, 4, 5) == []
  {
  }
}
