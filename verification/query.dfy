/**
 * Query parameters of the user listing: paging, the optional active-state
 * filter and the free-text search. The page size is held below its cap by the
 * property setter, so the stored value can never exceed it.
 */
module Query {
  import opened Common

  const MaxPageSize: int := 50
  const DefaultPage: int := 1
  const DefaultPageSize: int := 10

  /** What the private backing field can hold once every write goes through the setter. */
  type PageSize = x: int | Int32Min <= x <= MaxPageSize witness DefaultPageSize

  datatype UserQueryParameters = UserQueryParameters(
    page: Int32,
    pageSize: PageSize,
    isActive: bool,
    isActiveFilterEnabled: bool,
    search: Option<string>)

  /** The part of the parameters that decides which rows qualify; paging plays no part in it. */
  datatype RowFilter = RowFilter(isActive: bool, isActiveFilterEnabled: bool, search: Option<string>)

  function FilterOf(p: UserQueryParameters): RowFilter {
    RowFilter(p.isActive, p.isActiveFilterEnabled, p.search)
  }

  /** A freshly constructed parameter object; `Search` starts out null. */
  const Defaults: UserQueryParameters :=
    UserQueryParameters(DefaultPage, DefaultPageSize, false, false, None)

  /** The `PageSize` setter: values above the cap are cut to the cap, everything else is kept. */
  function SetPageSize(p: UserQueryParameters, value: Int32): (q: UserQueryParameters)
    ensures q.pageSize <= MaxPageSize
    ensures value <= MaxPageSize ==> q.pageSize == value
    ensures value > MaxPageSize ==> q.pageSize == MaxPageSize
    ensures q.(pageSize := p.pageSize) == p
  {
    p.(pageSize := if value > MaxPageSize then MaxPageSize else value)
  }

  /** The `Page` setter stores its value as given; a page of zero or below is not rejected. */
  function SetPage(p: UserQueryParameters, value: Int32): (q: UserQueryParameters)
    ensures q.page == value
    ensures q.(page := p.page) == p
  {
    p.(page := value)
  }

  /** The object initializer the listing endpoint uses: the default object, then each setter in turn. */
  function FromRequest(page: Int32, pageSize: Int32, isActive: bool, isActiveFilterEnabled: bool, search: string)
    : (p: UserQueryParameters)
    ensures p.page == page
    ensures p.pageSize == (if pageSize > MaxPageSize then MaxPageSize else pageSize)
    ensures p.isActive == isActive && p.isActiveFilterEnabled == isActiveFilterEnabled
    ensures p.search == Some(search)
  {
    SetPageSize(SetPage(Defaults, page), pageSize)
      .(isActive := isActive, isActiveFilterEnabled := isActiveFilterEnabled, search := Some(search))
  }

  /** Setting the size again to what it already holds changes nothing. */
  lemma SetPageSizeIdempotent(p: UserQueryParameters, value: Int32)
    ensures SetPageSize(SetPageSize(p, value), SetPageSize(p, value).pageSize) == SetPageSize(p, value)
  {
  }

  /**
   * The number of rows skipped before the requested page, computed as the
   * source does: `(Page - 1) * PageSize` in unchecked 32-bit arithmetic, so
   * both the subtraction and the product wrap around.
   */
  function PageOffsetAsWritten(p: UserQueryParameters): (r: Int32)
    ensures r % 0x1_0000_0000 == ((p.page - 1) * p.pageSize) % 0x1_0000_0000
  {
    var pred := Wrap32(p.page - 1);
    assert pred % 0x1_0000_0000 == (p.page - 1) % 0x1_0000_0000;
    var r := Wrap32(pred * p.pageSize);
    ModMulCongruence(pred, p.page - 1, p.pageSize);
    r
  }

  lemma ModMulCongruence(a: int, b: int, c: int)
    requires a % 0x1_0000_0000 == b % 0x1_0000_0000
    ensures (a * c) % 0x1_0000_0000 == (b * c) % 0x1_0000_0000
  {
    var k := (a - b) / 0x1_0000_0000;
    assert a - b == k * 0x1_0000_0000;
    assert a * c == b * c + (k * c) * 0x1_0000_0000;
  }

  /** A page far past the end wraps back to offset 0 and would repeat the first page. */
  lemma OffsetWrapsToFirstPage()
    ensures var p := UserQueryParameters(268435457, 16, false, false, None);
      PageOffsetAsWritten(p) == 0 && PageOffset(p) == 0x1_0000_0000
  {
  }

  /** The offset as intended: the exact number of rows on the pages before `page`. */
  function PageOffset(p: UserQueryParameters): (r: int)
    ensures p.page >= 1 && p.pageSize >= 0 ==> r >= 0
    ensures p.page == 1 ==> r == 0
  {
    Offset(p.page, p.pageSize)
  }

  function Offset(page: int, size: int): int {
    (page - 1) * size
  }

  /** Each page starts where the previous one ended. */
  lemma OffsetAdvancesByPageSize(page: int, size: int)
    ensures Offset(page + 1, size) == Offset(page, size) + size
  {
    assert page * size == (page - 1) * size + size;
  }
}
