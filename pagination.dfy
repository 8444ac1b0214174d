/**
 * The arithmetic of the paginated user listing (`GET /users`): the fallbacks
 * for the `page` and `pageSize` query parameters, the `skip`/`take` window
 * handed to the datastore, the page count, the next/previous links and the
 * envelope the handler answers with.
 *
 * `parseInt` is abstracted as an `Option<int>` (`None` for NaN) and
 * `Math.ceil(total / pageSize)` as exact integer ceiling division.
 */
module Pagination {
  import opened Wrappers
  import Decimal

  const DefaultPage: int := 1
  const DefaultPageSize: int := 10
  const PagePrefix: string := "/users?page="
  const SizeParam: string := "&pageSize="

  /**
   * JavaScript's `Number.MAX_SAFE_INTEGER`, 2^53 - 1. Page numbers, sizes and
   * the values derived from them are exact integers here; the source's
   * doubles agree with them, and print as plain digits, only up to this bound.
   */
  const MaxSafeInteger: int := 0x1F_FFFF_FFFF_FFFF

  predicate SafeInteger(n: int) {
    -MaxSafeInteger <= n <= MaxSafeInteger
  }

  /**
   * `parseInt(x) || fallback`: both NaN and 0 are falsy, so both give the
   * fallback; every other parsed value, negative ones included, is kept.
   */
  function OrDefault(parsed: Option<int>, fallback: int): (r: int)
    ensures parsed.None? ==> r == fallback
    ensures parsed == Some(0) ==> r == fallback
    ensures parsed.Some? && parsed.value != 0 ==> r == parsed.value
  {
    if parsed.Some? && parsed.value != 0 then parsed.value else fallback
  }

  /** What the handler derives from the query before touching the datastore. */
  datatype PageQuery = PageQuery(page: int, pageSize: int, skip: int, take: int)

  function Plan(pageArg: Option<int>, sizeArg: Option<int>): (q: PageQuery)
    ensures q.page != 0 && q.pageSize != 0
    ensures q.page == OrDefault(pageArg, DefaultPage)
    ensures q.pageSize == OrDefault(sizeArg, DefaultPageSize)
    ensures q.skip == (q.page - 1) * q.pageSize
    ensures q.take == q.pageSize
  {
    var page := OrDefault(pageArg, DefaultPage);
    var pageSize := OrDefault(sizeArg, DefaultPageSize);
    PageQuery(page, pageSize, (page - 1) * pageSize, pageSize)
  }

  /** Without usable query parameters the first ten rows are asked for. */
  lemma PlanDefaults(pageArg: Option<int>, sizeArg: Option<int>)
    requires pageArg == None || pageArg == Some(0)
    requires sizeArg == None || sizeArg == Some(0)
    ensures Plan(pageArg, sizeArg) == PageQuery(1, 10, 0, 10)
  {
  }

  /**
   * `Math.ceil(total / pageSize)` on exact rationals. With a positive page size
   * this is the number of pages needed for `total` rows; a negative page size
   * (which the fallback lets through) gives a non-positive count.
   */
  function TotalPages(total: nat, pageSize: int): (r: int)
    requires pageSize != 0
    ensures pageSize > 0 ==> r >= 0 && (r - 1) * pageSize < total <= r * pageSize
    ensures pageSize > 0 ==> (r == 0 <==> total == 0)
    ensures pageSize < 0 ==> r <= 0 && r * pageSize <= total < (r - 1) * pageSize
  {
    if pageSize > 0 then
      CeilingBounds(total, pageSize);
      (total + pageSize - 1) / pageSize
    else
      NegativeCeilingBounds(total, -pageSize);
      -(total / -pageSize)
  }

  lemma CeilingBounds(total: nat, m: int)
    requires m > 0
    ensures var q := (total + m - 1) / m;
      q >= 0 && (q - 1) * m < total <= q * m && (q == 0 <==> total == 0)
  {
    var a := total + m - 1;
    var q := a / m;
    assert a == q * m + a % m;
    assert (q - 1) * m == q * m - m;
    if total > 0 && q <= 0 {
      MulLe(q, 0, m);
      assert false;
    }
  }

  lemma NegativeCeilingBounds(total: nat, m: int)
    requires m > 0
    ensures var r := -(total / m);
      r <= 0 && r * -m <= total < (r - 1) * -m
  {
    var f := total / m;
    assert total == f * m + total % m;
    assert (-f) * -m == f * m;
    assert (-f - 1) * -m == f * m + m;
  }

  lemma MulLe(a: int, b: int, k: int)
    requires k > 0 && a <= b
    ensures a * k <= b * k
  {
    assert b * k - a * k == (b - a) * k;
  }

  /** The page count is the LEAST number of pages of `pageSize` rows that hold `total` rows. */
  lemma TotalPagesIsLeast(total: nat, pageSize: int, t: int)
    requires pageSize > 0 && t * pageSize >= total
    ensures t >= TotalPages(total, pageSize)
  {
    var r := TotalPages(total, pageSize);
    if t < r {
      MulLe(t, r - 1, pageSize);
      assert false;
    }
  }

  /**
   * The link text `/users?page=<page>&pageSize=<pageSize>` of the template
   * literals: the path and `page=` prefix, and exactly one `&`, which ends the
   * page number and starts the page size.
   */
  function Link(page: int, pageSize: int): (r: string)
    ensures |PagePrefix| <= |r| && r[..|PagePrefix|] == PagePrefix
    ensures var cut := |PagePrefix| + |Decimal.IntToString(page)|;
      cut + |SizeParam| < |r| && r[cut..cut + |SizeParam|] == SizeParam &&
      forall k :: |PagePrefix| <= k < |r| && r[k] == '&' ==> k == cut
  {
    var a := Decimal.IntToString(page);
    var b := Decimal.IntToString(pageSize);
    var r := PagePrefix + a + SizeParam + b;
    var cut := |PagePrefix| + |a|;
    assert r[..|PagePrefix|] == PagePrefix;
    assert r[cut..cut + |SizeParam|] == SizeParam;
    assert forall k :: |PagePrefix| <= k < cut ==> r[k] == a[k - |PagePrefix|];
    assert forall k :: cut + |SizeParam| <= k < |r| ==> r[k] == b[k - cut - |SizeParam|];
    assert forall k :: cut < k < cut + |SizeParam| ==> r[k] == SizeParam[k - cut] && r[k] != '&';
    r
  }

  /** `nextPage`: set exactly when there is a later page. */
  function NextPage(page: int, pageSize: int, totalPages: int): (r: Option<string>)
    ensures r.Some? <==> page < totalPages
    ensures r.Some? ==> r.value == Link(page + 1, pageSize)
  {
    if page < totalPages then Some(Link(page + 1, pageSize)) else None
  }

  /** `prevPage`: set exactly when the current page is after the first. */
  function PrevPage(page: int, pageSize: int): (r: Option<string>)
    ensures r.Some? <==> page > 1
    ensures r.Some? ==> r.value == Link(page - 1, pageSize)
  {
    if page > 1 then Some(Link(page - 1, pageSize)) else None
  }

  /** The JSON object `{count, totalPages, currentPage, nextPage, prevPage, users}`. */
  datatype Envelope<T> = Envelope(
    count: int,
    totalPages: int,
    currentPage: int,
    nextPage: Option<string>,
    prevPage: Option<string>,
    users: seq<T>)

  /**
   * The envelope for the parsed query, the row count the datastore reported
   * and the rows `findMany` returned for the planned window.
   */
  function Paginate<T>(pageArg: Option<int>, sizeArg: Option<int>, total: nat, rows: seq<T>): (e: Envelope<T>)
    ensures e.count == total && e.users == rows
    ensures e.currentPage == Plan(pageArg, sizeArg).page
    ensures e.totalPages == TotalPages(total, Plan(pageArg, sizeArg).pageSize)
    ensures e.nextPage.Some? <==> e.currentPage < e.totalPages
    ensures e.nextPage.Some? ==> e.nextPage.value == Link(e.currentPage + 1, Plan(pageArg, sizeArg).pageSize)
    ensures e.prevPage.Some? <==> e.currentPage > 1
    ensures e.prevPage.Some? ==> e.prevPage.value == Link(e.currentPage - 1, Plan(pageArg, sizeArg).pageSize)
  {
    var q := Plan(pageArg, sizeArg);
    var totalPages := TotalPages(total, q.pageSize);
    Envelope(total, totalPages, q.page, NextPage(q.page, q.pageSize, totalPages), PrevPage(q.page, q.pageSize), rows)
  }

  /** On a page inside the range, the links are missing exactly at the last and the first page. */
  lemma LinksAtBoundaries<T>(pageArg: Option<int>, sizeArg: Option<int>, total: nat, rows: seq<T>)
    requires var e := Paginate(pageArg, sizeArg, total, rows); 1 <= e.currentPage <= e.totalPages
    ensures var e := Paginate(pageArg, sizeArg, total, rows);
      (e.nextPage.None? <==> e.currentPage == e.totalPages) && (e.prevPage.None? <==> e.currentPage == 1)
  {
  }

  // ---------------------------------------------------------------------------
  // Reading a link back: the query a link carries is the page it promises.

  function IndexOf(s: string, c: char): (r: Option<nat>)
    ensures r.Some? ==> r.value < |s| && s[r.value] == c && forall k :: 0 <= k < r.value ==> s[k] != c
    ensures r.None? ==> forall k :: 0 <= k < |s| ==> s[k] != c
  {
    if s == [] then None
    else if s[0] == c then Some(0)
    else match IndexOf(s[1..], c)
      case None => None
      case Some(k) => Some(k + 1)
  }

  /** Splits `/users?page=<int>&pageSize=<int>` into its two integers. */
  function ParseLink(s: string): Option<(int, int)>
  {
    if |s| < |PagePrefix| || s[..|PagePrefix|] != PagePrefix then None
    else
      var rest := s[|PagePrefix|..];
      match IndexOf(rest, '&')
      case None => None
      case Some(k) =>
        var tail := rest[k..];
        if |tail| < |SizeParam| || tail[..|SizeParam|] != SizeParam then None
        else
          match (Decimal.ReadInt(rest[..k]), Decimal.ReadInt(tail[|SizeParam|..]))
          case (Some(p), Some(ps)) => Some((p, ps))
          case _ => None
  }

  /** A link gives back exactly the page and page size it was written from. */
  lemma LinkRoundTrip(page: int, pageSize: int)
    ensures ParseLink(Link(page, pageSize)) == Some((page, pageSize))
  {
    var a := Decimal.IntToString(page);
    var b := Decimal.IntToString(pageSize);
    var s := Link(page, pageSize);
    assert s == PagePrefix + (a + SizeParam + b);
    assert s[..|PagePrefix|] == PagePrefix;
    var rest := s[|PagePrefix|..];
    assert rest == a + SizeParam + b;
    assert rest[|a|] == '&';
    assert forall k :: 0 <= k < |a| ==> rest[k] == a[k] && a[k] != '&';
    assert IndexOf(rest, '&') == Some(|a|);
    assert rest[..|a|] == a;
    var tail := rest[|a|..];
    assert tail == SizeParam + b;
    assert tail[..|SizeParam|] == SizeParam;
    assert tail[|SizeParam|..] == b;
    Decimal.IntRoundTrip(page);
    Decimal.IntRoundTrip(pageSize);
  }

  /**
   * Requesting the `nextPage` link's query gives the following page with the
   * same page size; the one exception is page -1, whose successor 0 falls
   * back to page 1. Stated for the safe-integer range, where the source's
   * arithmetic is exact and its links are written in plain digits.
   */
  lemma FollowNextPage<T>(pageArg: Option<int>, sizeArg: Option<int>, total: nat, rows: seq<T>)
    requires Paginate(pageArg, sizeArg, total, rows).nextPage.Some?
    requires SafeInteger(Plan(pageArg, sizeArg).page + 1) && SafeInteger(Plan(pageArg, sizeArg).pageSize)
    ensures var e := Paginate(pageArg, sizeArg, total, rows);
      var link := ParseLink(e.nextPage.value);
      link.Some? &&
      var q := Plan(Some(link.value.0), Some(link.value.1));
      q.page == (if e.currentPage == -1 then DefaultPage else e.currentPage + 1) &&
      q.pageSize == Plan(pageArg, sizeArg).pageSize
  {
    var e := Paginate(pageArg, sizeArg, total, rows);
    LinkRoundTrip(e.currentPage + 1, Plan(pageArg, sizeArg).pageSize);
  }

  /**
   * Requesting the `prevPage` link's query gives exactly the preceding page,
   * within the safe-integer range.
   */
  lemma FollowPrevPage<T>(pageArg: Option<int>, sizeArg: Option<int>, total: nat, rows: seq<T>)
    requires Paginate(pageArg, sizeArg, total, rows).prevPage.Some?
    requires SafeInteger(Plan(pageArg, sizeArg).page) && SafeInteger(Plan(pageArg, sizeArg).pageSize)
    ensures var e := Paginate(pageArg, sizeArg, total, rows);
      var link := ParseLink(e.prevPage.value);
      link.Some? &&
      var q := Plan(Some(link.value.0), Some(link.value.1));
      q.page == e.currentPage - 1 && q.pageSize == Plan(pageArg, sizeArg).pageSize
  {
    var e := Paginate(pageArg, sizeArg, total, rows);
    LinkRoundTrip(e.currentPage - 1, Plan(pageArg, sizeArg).pageSize);
  }

  // ---------------------------------------------------------------------------
  // The page window over the rows in datastore order, for skip, take >= 0.

  function Min(a: int, b: int): int { if a <= b then a else b }

  /** The rows `findMany({skip, take})` answers with, read as a slice of the datastore order. */
  function Window<T>(order: seq<T>, skip: nat, take: nat): (r: seq<T>)
    ensures |r| <= take
    ensures |r| == if skip >= |order| then 0 else Min(take, |order| - skip)
    ensures forall k :: 0 <= k < |r| ==> r[k] == order[skip + k]
  {
    if skip >= |order| then [] else order[skip..Min(skip + take, |order|)]
  }

  /** Row `i` (0-based) of `total` rows lies on page `i / pageSize + 1`, which is in range. */
  lemma RowIsOnPage(total: nat, pageSize: int, i: nat)
    requires pageSize > 0 && i < total
    ensures var p := i / pageSize + 1;
      1 <= p <= TotalPages(total, pageSize) && (p - 1) * pageSize <= i < p * pageSize
  {
    var p := i / pageSize + 1;
    assert i == (i / pageSize) * pageSize + i % pageSize;
    assert p * pageSize == (i / pageSize) * pageSize + pageSize;
    var r := TotalPages(total, pageSize);
    if p > r {
      MulLe(r, p - 1, pageSize);
      assert false;
    }
  }

  /** No row lies on two pages. */
  lemma RowPageUnique(pageSize: int, i: nat, p: int, p': int)
    requires pageSize > 0
    requires (p - 1) * pageSize <= i < p * pageSize
    requires (p' - 1) * pageSize <= i < p' * pageSize
    ensures p == p'
  {
    if p < p' {
      MulLe(p, p' - 1, pageSize);
      assert false;
    } else if p' < p {
      MulLe(p', p - 1, pageSize);
      assert false;
    }
  }

  /** Page `page` of the window starting at row `(page - 1) * pageSize` has rows exactly when it is in range. */
  lemma PageWindowNonEmpty<T>(order: seq<T>, page: int, pageSize: int)
    requires page >= 1 && pageSize >= 1
    ensures (page - 1) * pageSize >= 0
    ensures Window(order, (page - 1) * pageSize, pageSize) != [] <==> page <= TotalPages(|order|, pageSize)
  {
    MulLe(0, page - 1, pageSize);
    var last := TotalPages(|order|, pageSize);
    if page <= last {
      MulLe(page - 1, last - 1, pageSize);
    } else {
      MulLe(last, page - 1, pageSize);
    }
  }

  /** Every page before the last holds a full `pageSize` rows. */
  lemma PageWindowFull<T>(order: seq<T>, page: int, pageSize: int)
    requires page >= 1 && pageSize >= 1 && page < TotalPages(|order|, pageSize)
    ensures (page - 1) * pageSize >= 0
    ensures |Window(order, (page - 1) * pageSize, pageSize)| == pageSize
  {
    MulLe(0, page - 1, pageSize);
    var last := TotalPages(|order|, pageSize);
    MulLe(page, last - 1, pageSize);
    assert (page - 1) * pageSize + pageSize == page * pageSize;
  }
}
