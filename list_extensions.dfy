/** `ListExtensions`: one page of an ordered collection, and joining strings
    with a delimiter. */
module ListExtensions {
  import opened Common
  import Text

  /** Whether key `a` goes strictly before key `b` in the requested order. */
  predicate Precedes(a: int, b: int, asc: bool)
  {
    if asc then a < b else a > b
  }

  /** In the requested order: no element goes strictly before an earlier one. */
  predicate Sorted<T>(s: seq<T>, key: T -> int, asc: bool)
  {
    forall i, j :: 0 <= i < j < |s| ==> !Precedes(key(s[j]), key(s[i]), asc)
  }

  /** `x` placed after every element whose key does not follow its own. */
  function Insert<T>(x: T, s: seq<T>, key: T -> int, asc: bool): seq<T>
  {
    if |s| == 0 then [x]
    else if Precedes(key(x), key(s[0]), asc) then [x] + s
    else [s[0]] + Insert(x, s[1..], key, asc)
  }

  /** `OrderBy(key)` when `asc` holds, `OrderByDescending(key)` otherwise: a
      stable sort, each element inserted after the equal keys before it. */
  function Ordered<T>(s: seq<T>, key: T -> int, asc: bool): seq<T>
  {
    if |s| == 0 then [] else Insert(s[|s| - 1], Ordered(s[..|s| - 1], key, asc), key, asc)
  }

  /** `Insert` puts `x` at position `k`: after every element it does not
      precede and, in a sorted sequence, before all the others. */
  lemma {:induction false} InsertAt<T>(x: T, s: seq<T>, key: T -> int, asc: bool) returns (k: nat)
    ensures k <= |s| && Insert(x, s, key, asc) == s[..k] + [x] + s[k..]
    ensures forall i :: 0 <= i < k ==> !Precedes(key(x), key(s[i]), asc)
    ensures k < |s| ==> Precedes(key(x), key(s[k]), asc)
  {
    if |s| == 0 {
      k := 0;
    } else if Precedes(key(x), key(s[0]), asc) {
      k := 0;
    } else {
      var t := s[1..];
      var k' := InsertAt(x, t, key, asc);
      k := k' + 1;
      ConsSlices(s, k);
      calc {
        Insert(x, s, key, asc);
        [s[0]] + Insert(x, t, key, asc);
        [s[0]] + (t[..k'] + [x] + t[k'..]);
        ([s[0]] + t[..k']) + [x] + t[k'..];
      }
      forall i | 0 < i < k
        ensures !Precedes(key(x), key(s[i]), asc)
      {
        assert s[i] == t[i - 1];
      }
      if k < |s| {
        assert s[k] == t[k'];
      }
    }
  }

  /** Cutting a non-empty sequence at `k > 0` cuts its tail at `k - 1`. */
  lemma ConsSlices<T>(s: seq<T>, k: nat)
    requires 0 < k <= |s|
    ensures s[..k] == [s[0]] + s[1..][..k - 1] && s[k..] == s[1..][k - 1..]
  {
    var a := [s[0]] + s[1..][..k - 1];
    assert |a| == k;
    forall i | 0 <= i < k
      ensures s[..k][i] == a[i]
    {
      if i > 0 {
        assert a[i] == s[1..][..k - 1][i - 1];
      }
    }
  }

  lemma InsertSorted<T>(x: T, s: seq<T>, key: T -> int, asc: bool)
    requires Sorted(s, key, asc)
    ensures Sorted(Insert(x, s, key, asc), key, asc)
    ensures multiset(Insert(x, s, key, asc)) == multiset(s) + multiset{x}
  {
    var k := InsertAt(x, s, key, asc);
    var r := Insert(x, s, key, asc);
    Splice(s, k, x);
    forall i, j | 0 <= i < j < |r|
      ensures !Precedes(key(r[j]), key(r[i]), asc)
    {
      if i == k && j - 1 != k {
        assert !Precedes(key(s[j - 1]), key(s[k]), asc);
      }
    }
  }

  /** The elements and the multiset of `s` with `x` put in at `k`. */
  lemma Splice<T>(s: seq<T>, k: nat, x: T)
    requires k <= |s|
    ensures var r := s[..k] + [x] + s[k..];
      |r| == |s| + 1
      && (forall i :: 0 <= i < k ==> r[i] == s[i])
      && r[k] == x
      && (forall i :: k < i <= |s| ==> r[i] == s[i - 1])
      && multiset(r) == multiset(s) + multiset{x}
  {
    assert s == s[..k] + s[k..];
  }

  /** The order is sorted and a permutation of the source. */
  lemma {:induction false} OrderedSpec<T>(s: seq<T>, key: T -> int, asc: bool)
    ensures Sorted(Ordered(s, key, asc), key, asc)
    ensures multiset(Ordered(s, key, asc)) == multiset(s)
  {
    if |s| > 0 {
      OrderedSpec(s[..|s| - 1], key, asc);
      InsertSorted(s[|s| - 1], Ordered(s[..|s| - 1], key, asc), key, asc);
      assert s == s[..|s| - 1] + [s[|s| - 1]];
    }
  }

  /** `Skip(n)`: a count of zero or less skips nothing. */
  function Skip<T>(s: seq<T>, n: int): (r: seq<T>)
  {
    if n <= 0 then s else if n >= |s| then [] else s[n..]
  }

  /** `Take(n)`: a count of zero or less takes nothing. */
  function Take<T>(s: seq<T>, n: int): (r: seq<T>)
  {
    if n <= 0 then [] else if n >= |s| then s else s[..n]
  }

  /** A page number or page size of 0 becomes 1. */
  function Normalised(n: int32): (r: int32)
    ensures r != 0
    ensures n != 0 ==> r == n
  {
    if n == 0 then 1 else n
  }

  /** `itemsPerPage * (page - 1)` in unchecked 32-bit arithmetic. */
  function SkipCount(page: int32, itemsPerPage: int32): int32
  {
    Wrap32(itemsPerPage as int * Wrap32(page as int - 1) as int)
  }

  /** The items of one page of an ordered sequence. */
  function PageItems<T>(ordered: seq<T>, page: int32, itemsPerPage: int32): seq<T>
  {
    Take(Skip(ordered, SkipCount(page, itemsPerPage) as int), itemsPerPage as int)
  }

  /** For a positive page and page size whose product does not overflow,
      the page is the contiguous run of at most `itemsPerPage` elements from
      index `itemsPerPage * (page - 1)`, and empty past the end. */
  lemma PageSlice<T>(ordered: seq<T>, page: int32, itemsPerPage: int32)
    requires page >= 1 && itemsPerPage >= 1
    requires itemsPerPage as int * (page as int - 1) <= INT32_MAX
    ensures SkipCount(page, itemsPerPage) as int == itemsPerPage as int * (page as int - 1)
    ensures var start := SkipCount(page, itemsPerPage) as int;
      var items := PageItems(ordered, page, itemsPerPage);
      (start >= |ordered| ==> items == [])
      && (start < |ordered| ==>
            |items| == if start + itemsPerPage as int <= |ordered| then itemsPerPage as int else |ordered| - start)
      && forall k :: 0 <= k < |items| ==> start + k < |ordered| && items[k] == ordered[start + k]
  {
    SkipCountExact(page, itemsPerPage);
  }

  /** Without overflow the skipped count is the product itself. */
  lemma SkipCountExact(page: int32, itemsPerPage: int32)
    requires page >= 1 && itemsPerPage >= 1
    requires itemsPerPage as int * (page as int - 1) <= INT32_MAX
    ensures SkipCount(page, itemsPerPage) as int == itemsPerPage as int * (page as int - 1) >= 0
  {
    var n := page as int - 1;
    assert Wrap32(n) as int == n;
    MulAtLeast(n, itemsPerPage as int);
  }

  /** `TotalPages`: 1 for an empty source, `(count - 1) / itemsPerPage + 1`
      otherwise. */
  function TotalPages(count: int, itemsPerPage: int32): int
    requires itemsPerPage != 0
  {
    if count == 0 then 1 else TruncDiv(count - 1, itemsPerPage as int) + 1
  }

  /** With a positive page size, the page count is the least positive
      number of pages that holds every element. */
  lemma TotalPagesLeast(count: nat, itemsPerPage: int32)
    requires itemsPerPage >= 1
    ensures var p := TotalPages(count, itemsPerPage);
      p >= 1 && p * itemsPerPage as int >= count
      && (count > 0 ==> (p - 1) * itemsPerPage as int < count)
      && (count == 0 ==> p == 1)
  {
    if count > 0 {
      var n := itemsPerPage as int;
      var q := (count - 1) / n;
      assert TruncDiv(count - 1, n) == q;
      var r := (count - 1) % n;
      assert q * n + r == count - 1 && 0 <= r < n;
      assert TotalPages(count, itemsPerPage) == q + 1;
      assert (q + 1) * n == q * n + n;
    }
  }

  /** `PagedList<T>` as `ToPagedList` fills it. */
  class PagedList<T> {
    var items: seq<T>
    var totalCount: int32
    var totalPages: int32
    var currentPage: int32
    var itemsPerPage: int32
    var orderedAsc: bool

    /** The internal constructor: the page settings, no items yet. */
    constructor (currentPage: int32, itemsPerPage: int32, orderedAsc: bool)
      ensures this.currentPage == currentPage && this.itemsPerPage == itemsPerPage
      ensures this.orderedAsc == orderedAsc
      ensures items == [] && totalCount == 0 && totalPages == 0
    {
      this.currentPage := currentPage;
      this.itemsPerPage := itemsPerPage;
      this.orderedAsc := orderedAsc;
      items := [];
      totalCount := 0;
      totalPages := 0;
    }
  }

  /** `ToPagedList`: a zero page or page size becomes 1; the items are that
      page of the ordered source; the totals count the whole source.
      `Count()` throws once the source outgrows an `int`. */
  method ToPagedList<T>(source: seq<T>, key: T -> int, page: int32, itemsPerPage: int32, orderedAsc: bool)
    returns (r: Result<PagedList<T>>)
    ensures |source| > INT32_MAX ==> r == Threw(OverflowException)
    ensures |source| <= INT32_MAX ==>
      r.Ok? && fresh(r.value)
      && r.value.currentPage == Normalised(page) && r.value.itemsPerPage == Normalised(itemsPerPage)
      && r.value.orderedAsc == orderedAsc
      && r.value.items == PageItems(Ordered(source, key, orderedAsc), Normalised(page), Normalised(itemsPerPage))
      && r.value.totalCount as int == |source|
      && r.value.totalPages as int == TotalPages(|source|, Normalised(itemsPerPage))
  {
    var page' := page;
    var itemsPerPage' := itemsPerPage;
    if page' == 0 {
      page' := 1;
    }
    if itemsPerPage' == 0 {
      itemsPerPage' := 1;
    }
    var pagedList := new PagedList(page', itemsPerPage', orderedAsc);
    var query := Ordered(source, key, orderedAsc);
    pagedList.items := Take(Skip(query, SkipCount(page', itemsPerPage') as int), itemsPerPage' as int);
    if |source| > INT32_MAX {
      return Threw(OverflowException);
    }
    pagedList.totalCount := |source| as int32;
    var totalPages := if pagedList.totalCount == 0 then 1 else TruncDiv(pagedList.totalCount as int - 1, itemsPerPage' as int) + 1;
    TotalPagesBound(|source|, itemsPerPage');
    pagedList.totalPages := totalPages as int32;
    return Ok(pagedList);
  }

  /** The page count fits in an `int`. */
  lemma TotalPagesBound(count: nat, itemsPerPage: int32)
    requires count <= INT32_MAX && itemsPerPage != 0
    ensures INT32_MIN <= TotalPages(count, itemsPerPage) <= INT32_MAX
  {
    if count > 0 {
      DivAtMost(count - 1, Abs(itemsPerPage as int));
    }
  }

  lemma DivAtMost(a: nat, n: int)
    requires n >= 1
    ensures 0 <= a / n <= a
  {
    var q := a / n;
    assert q * n + a % n == a;
    MulAtLeast(q, n);
  }

  /** A multiple by at least one is at least the number itself. */
  lemma {:induction false} MulAtLeast(q: nat, n: nat)
    requires n >= 1
    ensures q <= q * n
    decreases n
  {
    if n > 1 {
      MulAtLeast(q, n - 1);
      assert q * n == q * (n - 1) + q;
    }
  }

  /** `Aggregate((i, j) => i + delimiter + j)` over a non-empty list: a
      left fold. */
  function Aggregate(parts: seq<string>, delimiter: string): string
    requires |parts| > 0
  {
    if |parts| == 1 then parts[0]
    else Aggregate(parts[..|parts| - 1], delimiter) + delimiter + parts[|parts| - 1]
  }

  /** `ToInLineConcat`: "" for a null or empty list, the aggregate
      otherwise. */
  function ToInLineConcat(value: Option<seq<string>>, delimiter: string): string
  {
    if value.None? || |value.value| == 0 then "" else Aggregate(value.value, delimiter)
  }

  /** The fold is `string.Join`: the delimiter goes between consecutive
      elements only, so a single element comes back unchanged. */
  lemma {:induction false} AggregateIsJoin(parts: seq<string>, delimiter: string)
    requires |parts| > 0
    ensures Aggregate(parts, delimiter) == Text.Join(parts, delimiter)
  {
    if |parts| > 1 {
      AggregateIsJoin(parts[..|parts| - 1], delimiter);
      Text.JoinSnoc(parts[..|parts| - 1], parts[|parts| - 1], delimiter);
      assert parts[..|parts| - 1] + [parts[|parts| - 1]] == parts;
    }
  }

  /** Joining with a one-character delimiter that no element contains is
      undone by splitting at that character. */
  lemma InLineConcatSplit(parts: seq<string>, c: char)
    requires |parts| > 0
    requires forall k :: 0 <= k < |parts| ==> c !in parts[k]
    ensures Text.Split(ToInLineConcat(Some(parts), [c]), c) == parts
  {
    AggregateIsJoin(parts, [c]);
    Text.JoinSplit(parts, c);
  }
}
