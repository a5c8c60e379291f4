/** Splitting records into pages, and the window of page numbers around the current page. */
module Paging {
  import opened Octets
  import opened Options

  function GetOffSet(currentPageNo: int, pageSize: int): int {
    if currentPageNo < 2 || pageSize < 1 then 0 else (currentPageNo - 1) * pageSize
  }

  function CountPages(recNumber: int, pageSize: int): (n: int)
    ensures n >= 1
  {
    if recNumber < 1 || pageSize < 1 then 1
    else
      CountIsPositive(recNumber, pageSize);
      (recNumber + pageSize - 1) / pageSize
  }

  lemma CountIsPositive(n: int, size: int)
    requires n >= 1 && size >= 1
    ensures (n + size - 1) / size >= 1
  {
  }

  /** Without records, or without a page size, there is one page; the first page, and any before it, starts with the first
      record. */
  lemma OnePageAtLeast(recNumber: int, pageSize: int, page: int)
    ensures recNumber <= 0 || pageSize <= 0 ==> CountPages(recNumber, pageSize) == 1
    ensures page <= 1 || pageSize <= 0 ==> GetOffSet(page, pageSize) == 0
  {
  }

  // A record's number, counted from 0, lies on a page.
  predicate OnPage(r: int, page: int, pageSize: int) {
    GetOffSet(page, pageSize) <= r < GetOffSet(page, pageSize) + pageSize
  }

  lemma {:induction false} Apart(p: int, q: int, size: int)
    requires p < q && size >= 1
    ensures p * size + size <= q * size
    decreases q - p
  {
    if p + 1 == q {
      assert q * size == p * size + size;
    } else {
      Apart(p, q - 1, size);
      assert q * size == (q - 1) * size + size;
    }
  }

  lemma OnlyPage(r: int, page: int, other: int, size: int)
    requires size >= 1 && page >= 1 && other >= 1 && OnPage(r, page, size) && OnPage(r, other, size)
    ensures page == other
  {
    if page < other {
      Apart(page - 1, other - 1, size);
    } else if other < page {
      Apart(other - 1, page - 1, size);
    }
  }

  // A quotient and remainder, and the page one before a whole number of pages.
  lemma DivMod(m: int, size: int)
    requires size >= 1
    ensures m == m / size * size + m % size && 0 <= m % size < size
    ensures (m / size - 1) * size == m / size * size - size
  {
  }

  lemma PageOf(r: int, pageSize: int)
    requires r >= 0 && pageSize >= 1
    ensures r / pageSize >= 0 && OnPage(r, r / pageSize + 1, pageSize)
    ensures forall page :: page >= 1 && OnPage(r, page, pageSize) ==> page == r / pageSize + 1
  {
    DivMod(r, pageSize);
    forall page | page >= 1 && OnPage(r, page, pageSize) ensures page == r / pageSize + 1 {
      OnlyPage(r, page, r / pageSize + 1, pageSize);
    }
  }

  lemma PageWithin(r: int, recNumber: int, pageSize: int)
    requires 0 <= r < recNumber && pageSize >= 1
    ensures r / pageSize + 1 <= CountPages(recNumber, pageSize)
  {
    var m := recNumber + pageSize - 1;
    DivMod(r, pageSize);
    DivMod(m, pageSize);
    if m / pageSize < r / pageSize {
      Apart(m / pageSize, r / pageSize, pageSize);
    }
  }

  lemma LastPageStarts(recNumber: int, pageSize: int)
    requires recNumber >= 1 && pageSize >= 1
    ensures GetOffSet(CountPages(recNumber, pageSize), pageSize) < recNumber
  {
    DivMod(recNumber + pageSize - 1, pageSize);
  }

  /** Every record is on exactly one of the pages counted, and no page counted is empty. */
  lemma PagesPartition(recNumber: int, pageSize: int)
    requires recNumber >= 1 && pageSize >= 1
    ensures forall r :: 0 <= r < recNumber ==>
              1 <= r / pageSize + 1 <= CountPages(recNumber, pageSize) && OnPage(r, r / pageSize + 1, pageSize)
    ensures forall r, page :: 0 <= r < recNumber && page >= 1 && OnPage(r, page, pageSize) ==> page == r / pageSize + 1
    ensures forall page :: 1 <= page <= CountPages(recNumber, pageSize) ==> GetOffSet(page, pageSize) < recNumber
  {
    forall r | 0 <= r < recNumber
      ensures 1 <= r / pageSize + 1 <= CountPages(recNumber, pageSize) && OnPage(r, r / pageSize + 1, pageSize)
      ensures forall page :: page >= 1 && OnPage(r, page, pageSize) ==> page == r / pageSize + 1
    {
      PageOf(r, pageSize);
      PageWithin(r, recNumber, pageSize);
    }
    forall page | 1 <= page <= CountPages(recNumber, pageSize) ensures GetOffSet(page, pageSize) < recNumber {
      PageStarts(page, recNumber, pageSize);
    }
  }

  lemma PageStarts(page: int, recNumber: int, pageSize: int)
    requires recNumber >= 1 && pageSize >= 1 && 1 <= page <= CountPages(recNumber, pageSize)
    ensures GetOffSet(page, pageSize) < recNumber
  {
    var n := CountPages(recNumber, pageSize);
    LastPageStarts(recNumber, pageSize);
    if page < n {
      Apart(page - 1, n - 1, pageSize);
    }
  }

  // ---- The window ----

  function Range(from: int, end: int): seq<int> {
    if from >= end then [] else seq(end - from, i => from + i)
  }

  // Four pages before the current one, more when there are fewer than five behind it.
  function WindowStart(current: int, pages: int): int {
    Max(1, Min(current - 4, pages - 9))
  }

  // Five pages behind the current one, more when there are fewer than four before it.
  function WindowEnd(current: int, pages: int): int {
    Min(pages, Max(current + 5, 10))
  }

  lemma RangeJoins(a: int, b: int, c: int)
    requires a <= b <= c
    ensures Range(a, b) + Range(b, c) == Range(a, c)
  {
    assert |Range(a, b)| == b - a && |Range(b, c)| == c - b && |Range(a, c)| == c - a;
    forall i | 0 <= i < c - a ensures (Range(a, b) + Range(b, c))[i] == Range(a, c)[i] {
      assert i >= b - a ==> (Range(a, b) + Range(b, c))[i] == Range(b, c)[i - (b - a)];
    }
  }

  /** The two lists and the current page are consecutive numbers, ten of them or all there are. */
  lemma WindowIsTen(current: int, pages: int)
    requires 1 <= current <= pages
    ensures 1 <= WindowStart(current, pages) <= current <= WindowEnd(current, pages) <= pages
    ensures Range(WindowStart(current, pages), current) + [current] + Range(current + 1, WindowEnd(current, pages) + 1)
         == Range(WindowStart(current, pages), WindowEnd(current, pages) + 1)
    ensures |Range(WindowStart(current, pages), WindowEnd(current, pages) + 1)| == Min(10, pages)
  {
    var from, end := WindowStart(current, pages), WindowEnd(current, pages);
    RangeJoins(from, current, current + 1);
    RangeJoins(from, current + 1, end + 1);
    assert Range(current, current + 1) == [current];
    assert |Range(from, end + 1)| == end + 1 - from;
  }

  /** The window reaches four pages back and five ahead where there are as many; at either end it stays ten pages wide. */
  lemma WindowPlace(current: int, pages: int)
    requires pages >= 1
    ensures 5 <= current <= pages - 5 ==> WindowStart(current, pages) == current - 4 && WindowEnd(current, pages) == current + 5
    ensures current < 5 ==> WindowStart(current, pages) == 1 && WindowEnd(current, pages) == (if pages < 10 then pages else 10)
    ensures current > pages - 5 && current >= 5 ==>
              WindowStart(current, pages) == (if pages < 10 then 1 else pages - 9) && WindowEnd(current, pages) == pages
  {
  }

  class PageSplitDto {
    var countRecNumber: int
    var pageSize: int
    var currPageNo: int
    var countPageNumber: int
    var prePageNo: int
    var nextPageNo: int
    var prePageNoList: seq<int>
    var posPageNoList: seq<int>
    var appPre: Option<string>
    var appPos: Option<string>

    constructor (countRecNumber: int, pageSize: int, currPageNo: int)
      ensures this.countRecNumber == countRecNumber && this.pageSize == pageSize && this.currPageNo == currPageNo
      ensures appPre == None && appPos == None
    {
      this.countRecNumber, this.pageSize, this.currPageNo := countRecNumber, pageSize, currPageNo;
      countPageNumber, prePageNo, nextPageNo := 0, 0, 0;
      prePageNoList, posPageNoList, appPre, appPos := [], [], None, None;
    }
  }

  method PrePageNumbers(start: int, end: int) returns (l: seq<int>)
    ensures l == Range(Max(start, 1), end)
  {
    var first := if start < 1 then 1 else start;
    l := [];
    var i := first;
    while i < end
      invariant i <= Max(first, end) && l == Range(first, i)
    {
      l := l + [i];
      i := i + 1;
    }
  }

  method PosPageNumbers(start: int, end: int) returns (l: seq<int>)
    ensures l == Range(start + 1, end + 1)
  {
    var last := if end < start then start else end;
    l := [];
    var i := start + 1;
    while i <= last
      invariant i <= last + 1 && l == Range(start + 1, i)
    {
      l := l + [i];
      i := i + 1;
    }
  }

  method SplitPage(dto: PageSplitDto)
    modifies dto
    ensures unchanged(dto`countRecNumber, dto`pageSize, dto`currPageNo)
    ensures dto.countPageNumber == CountPages(dto.countRecNumber, dto.pageSize)
    ensures dto.nextPageNo == Min(dto.currPageNo + 1, dto.countPageNumber) && dto.prePageNo == Max(dto.currPageNo - 1, 1)
    ensures dto.prePageNoList == Range(WindowStart(dto.currPageNo, dto.countPageNumber), dto.currPageNo)
    ensures dto.posPageNoList == Range(dto.currPageNo + 1, WindowEnd(dto.currPageNo, dto.countPageNumber) + 1)
    ensures dto.appPos == if dto.currPageNo + 4 < dto.countPageNumber then Some("YES") else old(dto.appPos)
    ensures dto.appPre == if 5 < dto.currPageNo then Some("YES") else old(dto.appPre)
  {
    var spNo := 4;
    var countPageNumber := CountPages(dto.countRecNumber, dto.pageSize);
    dto.countPageNumber := countPageNumber;
    var currentPageNo := dto.currPageNo;
    var nextPageNo := currentPageNo + 1;
    if nextPageNo > countPageNumber {
      nextPageNo := countPageNumber;
    }
    dto.nextPageNo := nextPageNo;
    if currentPageNo + spNo < countPageNumber {
      dto.appPos := Some("YES");
    }
    var prePageNo := currentPageNo - 1;
    if prePageNo < 1 {
      prePageNo := 1;
    }
    dto.prePageNo := prePageNo;
    if 1 + spNo < currentPageNo {
      dto.appPre := Some("YES");
    }
    var startPage := currentPageNo - spNo;
    var exp := spNo + 1 - (countPageNumber - currentPageNo);
    if exp > 0 {
      startPage := startPage - exp;
    }
    dto.prePageNoList := PrePageNumbers(startPage, currentPageNo);
    var endPage := currentPageNo + spNo + 1;
    var exn := spNo - currentPageNo + 1;
    if exn > 0 {
      endPage := endPage + exn;
    }
    if endPage > countPageNumber {
      endPage := countPageNumber;
    }
    dto.posPageNoList := PosPageNumbers(currentPageNo, endPage);
  }

  /** A side whose pages are cut off is always flagged. The converse fails for exactly these pages: the flag is set with
      nothing cut off when one page more than four lies on that side, or when all pages are in the window. */
  lemma OmittedIsFlagged(current: int, pages: int)
    requires 1 <= current <= pages
    ensures WindowEnd(current, pages) < pages ==> current + 4 < pages
    ensures WindowStart(current, pages) > 1 ==> 5 < current
    ensures current + 4 < pages && WindowEnd(current, pages) == pages <==> current + 4 < pages && (current + 5 == pages || pages <= 10)
    ensures 5 < current && WindowStart(current, pages) == 1 <==> 5 < current && pages <= 10
  {
  }
}
