/** Offset pagination (`src/models/page.rs`), and what a truthful server answers. */
module Pages {
  import opened Outcomes
  import opened Words
  import opened Division

  datatype Meta = Meta(number: I64, size: I64, total: I64, totalPages: I64)

  datatype Page<+T> = Page(items: seq<T>, meta: Meta) {
    /** `next_page_number`: no `i64` makes it overflow. */
    function NextPageNumber(): (next: Option<I64>)
      ensures next.Some? ==> next.value == meta.number + 1 <= meta.totalPages
      ensures next.None? ==> meta.totalPages <= meta.number
    {
      if meta.number < meta.totalPages then Some(meta.number + 1) else None
    }
  }

  function Min(a: int, b: int): int {
    if a < b then a else b
  }

  function Max(a: int, b: int): int {
    if a < b then b else a
  }

  /** Pages are cut at multiples of the page size, within the listing. */
  function Cut(total: nat, size: nat, pages: nat): (at: nat)
    ensures at <= total
  {
    Min(pages * size, total)
  }

  function TotalPages(total: nat, size: nat): nat
    requires size >= 1
  {
    (total + size - 1) / size
  }

  lemma CutAdvances(total: nat, size: nat, pages: nat)
    ensures Cut(total, size, pages) <= Cut(total, size, pages + 1)
  {
    assert (pages + 1) * size == pages * size + size;
  }

  /** The last page ends the listing, and no earlier one does. */
  lemma LastPageEnds(total: nat, size: nat, pages: nat)
    requires size >= 1
    ensures pages >= TotalPages(total, size) <==> Cut(total, size, pages) == total
  {
    var n := total + size - 1;
    var q := n / size;
    assert n == q * size + n % size;
    if pages >= q {
      Product(q, pages, size);
    } else {
      Product(pages, q - 1, size);
      assert (q - 1) * size == q * size - size;
    }
  }

  lemma TotalPagesBounded(total: nat, size: nat)
    requires size >= 1
    ensures TotalPages(total, size) <= total
  {
    if total > 0 {
      Product(1, total, size - 1);
      assert total * (size - 1) == total * size - total;
      assert (total + 1) * size == total * size + size;
      QuotientBounded(total + size - 1, size, total);
    }
  }

  lemma QuotientBounded(n: nat, d: nat, k: nat)
    requires d >= 1 && n < (k + 1) * d
    ensures n / d <= k
  {
    if n / d >= k + 1 {
      Product(k + 1, n / d, d);
    }
  }

  /** A server's page `number` of a listing, cut at its own page size. */
  function PageOf<T>(listing: seq<T>, size: I64, number: I64): (page: Page<T>)
    requires 1 <= size && |listing| <= I64_MAX
    ensures page.meta.number == Max(number, 1) && page.meta.totalPages == TotalPages(|listing|, size)
    ensures page.items == listing[Cut(|listing|, size, page.meta.number - 1)..Cut(|listing|, size, page.meta.number)]
  {
    var n: I64 := Max(number, 1);
    TotalPagesBounded(|listing|, size);
    CutAdvances(|listing|, size, n - 1);
    Page(listing[Cut(|listing|, size, n - 1)..Cut(|listing|, size, n)], Meta(n, size, |listing|, TotalPages(|listing|, size)))
  }

  function Concat<T>(listing: seq<T>, size: I64, pages: nat): seq<T>
    requires 1 <= size && |listing| <= I64_MAX && pages <= I64_MAX
  {
    if pages == 0 then [] else Concat(listing, size, pages - 1) + PageOf(listing, size, pages).items
  }

  /** The pages in order are the listing: nothing is skipped and nothing comes twice. */
  lemma {:induction false} PagesConcatenate<T>(listing: seq<T>, size: I64, pages: nat)
    requires 1 <= size && |listing| <= I64_MAX && pages <= I64_MAX
    ensures Concat(listing, size, pages) == listing[..Cut(|listing|, size, pages)]
    ensures pages >= TotalPages(|listing|, size) ==> Concat(listing, size, pages) == listing
  {
    hide Cut, PageOf, TotalPages;
    LastPageEnds(|listing|, size, pages);
    if pages > 0 {
      PagesConcatenate(listing, size, pages - 1);
      CutAdvances(|listing|, size, pages - 1);
      var a, b := Cut(|listing|, size, pages - 1), Cut(|listing|, size, pages);
      assert listing[..a] + listing[a..b] == listing[..b];
    } else {
      CutAtZero(|listing|, size);
    }
  }

  lemma CutAtZero(total: nat, size: nat)
    ensures Cut(total, size, 0) == 0
  {
  }
}
