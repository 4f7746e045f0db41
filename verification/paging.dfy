/**
 * Paging arithmetic of the post list: page sizes, the number of pages, the
 * record offset of a page, and the guard every page-changing control goes
 * through.
 */
module Paging {
  import opened JsValues

  /** The four choices of the "records per page" select. */
  datatype PageSize = Size25 | Size50 | Size100 | Size200 {
    function Value(): int {
      match this
      case Size25 => 25
      case Size50 => 50
      case Size100 => 100
      case Size200 => 200
    }
  }

  /** The page size the list starts with. */
  const DefaultSize: PageSize := Size25

  lemma PageSizePositive(size: PageSize)
    ensures size.Value() > 0
  {
  }

  /**
   * `Math.ceil(total / limit)`: the least page count whose pages hold all
   * `total` records. There is no floor of one page, so an empty collection
   * has zero pages.
   */
  function TotalPages(total: nat, limit: int): (pages: nat)
    requires limit > 0
    ensures total == 0 ==> pages == 0
    ensures total > 0 ==> (pages - 1) * limit < total <= pages * limit
  {
    var q := (total + limit - 1) / limit;
    assert q * limit <= total + limit - 1 < q * limit + limit;
    q
  }

  /** `(page - 1) * limit`: how many records precede the first record of `page`. */
  function Skip(page: int, limit: int): int {
    (page - 1) * limit
  }

  /** Offsets are never negative for pages from 1 on, and every page up to the page count starts at an existing record. */
  lemma SkipInRange(page: int, limit: int, total: nat)
    requires limit > 0
    requires 1 <= page <= TotalPages(total, limit)
    ensures 0 <= Skip(page, limit) < total
  {
    var n := TotalPages(total, limit);
    assert (page - 1) * limit <= (n - 1) * limit;
  }

  /** The page a zero-based record index falls on. */
  function PageOf(index: nat, limit: int): int
    requires limit > 0
  {
    index / limit + 1
  }

  lemma MulMonotone(a: int, b: int, c: int)
    requires a <= b && c > 0
    ensures a * c <= b * c
  {
    assert b * c - a * c == (b - a) * c;
  }

  /** Every record lies on a page that the page count allows, within that page's span of records. */
  lemma RecordOnPage(index: nat, limit: int, total: nat)
    requires limit > 0
    requires index < total
    ensures 1 <= PageOf(index, limit) <= TotalPages(total, limit)
    ensures Skip(PageOf(index, limit), limit) <= index < Skip(PageOf(index, limit), limit) + limit
  {
    var d := index / limit;
    var n := TotalPages(total, limit);
    assert Skip(d + 1, limit) == d * limit;
    if d + 1 > n {
      MulMonotone(n, d, limit);
      assert false;
    }
  }

  /** No two pages share a record: two pages whose spans both hold a record are the same page. */
  lemma RecordOnOnePage(index: nat, limit: int, p: int, q: int)
    requires limit > 0
    requires Skip(p, limit) <= index < Skip(p, limit) + limit
    requires Skip(q, limit) <= index < Skip(q, limit) + limit
    ensures p == q
  {
    if p < q {
      MulMonotone(p, q - 1, limit);
    } else if q < p {
      MulMonotone(q, p - 1, limit);
    }
  }

  /** Whether `handlePage` lets a request through: a number, at least 1, at most the page count. */
  predicate Accepts(totalPage: int, request: JsNumber) {
    !(request.NaN? || request.value < 1 || request.value > totalPage)
  }

  function Max(a: int, b: int): int { if a >= b then a else b }

  function Min(a: int, b: int): int { if a <= b then a else b }

  /**
   * `handlePage(newPage)`: the page after a request. A rejected request
   * leaves the page as it was; an accepted one is clamped into
   * `[1, totalPage]` before it is committed.
   */
  function HandlePage(page: JsNumber, totalPage: int, request: JsNumber): (next: JsNumber)
    ensures request.NaN? || request.value < 1 || request.value > totalPage ==> next == page
    ensures totalPage < 1 ==> next == page
    ensures Accepts(totalPage, request) ==> next == request
    ensures next != page ==> next.Int? && 1 <= next.value <= totalPage
  {
    if request.NaN? || request.value < 1 || request.value > totalPage then page
    else Int(Max(1, Min(request.value, totalPage)))
  }

  /** Repeating a request changes nothing more. */
  lemma HandlePageIdempotent(page: JsNumber, totalPage: int, request: JsNumber)
    ensures HandlePage(HandlePage(page, totalPage, request), totalPage, request)
         == HandlePage(page, totalPage, request)
  {
  }

  /** Fifty-seven records at twenty-five per page make three pages, and page four is refused. */
  lemma FiftySevenRecordsScenario(page: JsNumber)
    ensures TotalPages(57, Size25.Value()) == 3
    ensures HandlePage(page, TotalPages(57, Size25.Value()), Int(4)) == page
  {
  }
}
