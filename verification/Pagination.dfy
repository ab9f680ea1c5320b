/** `paginate`: query parameters to LIMIT and OFFSET in 32-bit arithmetic. */
module Pagination {
  import opened Tables

  const MAX_INT32 := 0x7FFF_FFFF
  const DEFAULT_PER_PAGE := 20
  const MAX_PER_PAGE := 100

  type Int32 = x: int | -0x8000_0000 <= x <= 0x7FFF_FFFF

  /** Two's complement wrap-around. */
  function Wrap32(x: int): Int32 {
    (x + 0x8000_0000) % 0x1_0000_0000 - 0x8000_0000
  }

  datatype PageWindow = PageWindow(limit: Int32, offset: Int32, page: Int32, perPage: Int32)

  function EffectivePage(page: Option<Int32>): Int32 {
    if page.Some? && page.value > 0 then page.value else 1
  }

  function EffectivePerPage(perPage: Option<Int32>): Int32 {
    if perPage.Some? && perPage.value > 0 then
      if perPage.value > MAX_PER_PAGE then MAX_PER_PAGE else perPage.value
    else DEFAULT_PER_PAGE
  }

  function Offset(page: Int32, perPage: Int32): Int32 {
    Wrap32(Wrap32(page - 1) * perPage)
  }

  function WindowOf(page: Option<Int32>, perPage: Option<Int32>): PageWindow {
    var p, n := EffectivePage(page), EffectivePerPage(perPage);
    PageWindow(n, Offset(p, n), p, n)
  }

  method Paginate(page: Option<Int32>, perPage: Option<Int32>) returns (w: PageWindow)
    ensures w == WindowOf(page, perPage)
    ensures 1 <= w.limit == w.perPage <= 100 && 1 <= w.page
    ensures w.page == if page.None? || page.value <= 0 then 1 else page.value
    ensures w.perPage == if perPage.None? || perPage.value <= 0 then 20
                         else if perPage.value <= 100 then perPage.value else 100
    ensures w.offset == (w.page - 1) * w.perPage <==> w.page - 1 <= MAX_INT32 / w.perPage
  {
    var effPage: Int32 := 1;
    if page.Some? && page.value > 0 {
      effPage := page.value;
    }
    var effPerPage: Int32 := DEFAULT_PER_PAGE;
    if perPage.Some? && perPage.value > 0 {
      effPerPage := perPage.value;
    }
    if effPerPage > MAX_PER_PAGE {
      effPerPage := MAX_PER_PAGE;
    }
    w := PageWindow(effPerPage, Wrap32(Wrap32(effPage - 1) * effPerPage), effPage, effPerPage);
    OffsetExact(page, perPage);
  }

  lemma ProductBound(a: nat, n: nat, m: nat)
    requires n > 0
    ensures a * n <= m <==> a <= m / n
  {
    if a <= m / n {
      assert a * n <= (m / n) * n <= m;
    } else {
      assert a * n >= (m / n + 1) * n;
    }
  }

  lemma WrapExact(x: nat)
    ensures Wrap32(x) == x <==> x <= MAX_INT32
  {
  }

  lemma OffsetOf(page: Int32, perPage: Int32)
    requires page >= 1 && perPage >= 1
    ensures Offset(page, perPage) == (page - 1) * perPage <==> page - 1 <= MAX_INT32 / perPage
  {
    WrapExact(page - 1);
    ProductBound(page - 1, perPage, MAX_INT32);
    var product: nat := (page - 1) * perPage;
    WrapExact(product);
    assert Offset(page, perPage) == Wrap32(product);
  }

  /** The offset is the mathematical one exactly up to this page; past it, 32 bits have wrapped. */
  lemma OffsetExact(page: Option<Int32>, perPage: Option<Int32>)
    ensures var w := WindowOf(page, perPage);
            && 1 <= w.limit == w.perPage <= 100 && 1 <= w.page
            && (w.offset == (w.page - 1) * w.perPage <==> w.page - 1 <= MAX_INT32 / w.perPage)
  {
    OffsetOf(EffectivePage(page), EffectivePerPage(perPage));
  }

  /** The offset asked for, and what 32 bits keep of it. */
  function TrueOffset(page: Option<Int32>, perPage: Option<Int32>): nat {
    Product(EffectivePage(page) - 1, EffectivePerPage(perPage))
  }

  function Product(a: nat, b: nat): nat {
    a * b
  }

  function KeptOffset(page: Option<Int32>, perPage: Option<Int32>): nat {
    TrueOffset(page, perPage) % 0x1_0000_0000
  }

  /** The test a caller can make: 32 bits hold the offset. */
  predicate InRange(page: Option<Int32>, perPage: Option<Int32>) {
    EffectivePage(page) - 1 <= MAX_INT32 / EffectivePerPage(perPage)
  }

  lemma WrapKept(x: nat)
    ensures var r := x % 0x1_0000_0000;
            Wrap32(x) == if r <= MAX_INT32 then r else r - 0x1_0000_0000
  {
    var q, r := x / 0x1_0000_0000, x % 0x1_0000_0000;
    assert x == 0x1_0000_0000 * q + r;
    if r <= MAX_INT32 {
      Remainder(x + 0x8000_0000, q, r + 0x8000_0000);
    } else {
      Remainder(x + 0x8000_0000, q + 1, r - 0x8000_0000);
    }
  }

  lemma Remainder(x: nat, q: nat, r: nat)
    requires x == 0x1_0000_0000 * q + r && r < 0x1_0000_0000
    ensures x % 0x1_0000_0000 == r
  {
  }

  /** Every page: in range the offset is the one asked for; past it, it is another one, or negative. */
  lemma KeptWindow(page: Option<Int32>, perPage: Option<Int32>)
    ensures var w, r := WindowOf(page, perPage), KeptOffset(page, perPage);
            && w.page == EffectivePage(page) && w.limit == w.perPage == EffectivePerPage(perPage)
            && w.offset == if r <= MAX_INT32 then r else r - 0x1_0000_0000
    ensures InRange(page, perPage) <==> KeptOffset(page, perPage) == TrueOffset(page, perPage) <= MAX_INT32
    ensures InRange(page, perPage) <==> TrueOffset(page, perPage) <= MAX_INT32
  {
    var p, n := EffectivePage(page), EffectivePerPage(perPage);
    WrapExact(p - 1);
    WrapKept(TrueOffset(page, perPage));
    ProductBound(p - 1, n, MAX_INT32);
  }

  /** Whatever the page size, no page up to 21474837 wraps, and the next one does for 100 per page. */
  lemma SafePages(page: Option<Int32>, perPage: Option<Int32>)
    ensures var w := WindowOf(page, perPage);
            w.page <= 21474837 ==> w.offset == (w.page - 1) * w.perPage
    ensures WindowOf(Some(21474838), Some(100)).offset < 0
  {
    var w := WindowOf(page, perPage);
    OffsetExact(page, perPage);
    if w.page <= 21474837 {
      ProductMonotone(w.page - 1, 21474836, w.perPage, 100);
      ProductBound(w.page - 1, w.perPage, MAX_INT32);
    }
    var past := WindowOf(Some(21474838), Some(100));
    assert past.page == 21474838 && past.perPage == 100;
  }

  lemma ProductMonotone(a: nat, a': nat, n: nat, n': nat)
    requires a <= a' && n <= n'
    ensures a * n <= a' * n'
  {
    assert a * n <= a' * n <= a' * n';
  }
}
