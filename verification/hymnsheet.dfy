/** `HymnSheet`: where a hymn's sheet music sits in a PDF of the whole
    hymnal, and the rule that collects its pages. The PDF is a partial map
    from page index to page; PDFKit's document loading is not modelled. */
module HymnSheets {
  import opened Wrappers
  import opened Text

  /** A crop rectangle in page coordinates. */
  datatype Rect = Rect(x: real, y: real, width: real, height: real)

  datatype HymnSheet = HymnSheet(
    hymnNumber: int,
    startPage: int,
    pageCount: int,
    sharedPage: bool,
    pageRect: Option<Rect>)

  /** A page of the document and the crop box set on it, if any. */
  datatype Page = Page(index: int, cropBox: Option<Rect>)

  /** `pdfDocument.page(at:)`: the indices the document has a page for. */
  type Pdf = map<int, Page>

  /** The indices in `lo .. hi-1` the document has a page for, ascending. */
  function Found(pdf: Pdf, lo: int, hi: int): (r: seq<int>)
    ensures forall k :: 0 <= k < |r| ==> lo <= r[k] < hi && r[k] in pdf
    ensures forall k, m :: 0 <= k < m < |r| ==> r[k] < r[m]
    ensures forall i :: lo <= i < hi && i in pdf ==> i in r
    ensures |r| <= if hi <= lo then 0 else hi - lo
    decreases hi - lo
  {
    if hi <= lo then []
    else if hi - 1 in pdf then Found(pdf, lo, hi - 1) + [hi - 1]
    else Found(pdf, lo, hi - 1)
  }

  /** Cropping happens only for a shared page that has a rectangle. */
  predicate Crops(sh: HymnSheet) {
    sh.sharedPage && sh.pageRect.Some?
  }

  /** The page as it is handed out: cropped to the sheet's rectangle when
      the sheet shares its page, otherwise as the document has it. */
  function Prepared(sh: HymnSheet, p: Page): (q: Page)
    ensures q.index == p.index
    ensures Crops(sh) ==> q.cropBox == sh.pageRect
    ensures !Crops(sh) ==> q == p
  {
    if Crops(sh) then p.(cropBox := sh.pageRect) else p
  }

  /** The pages `getSheetPages` hands out for the given indices. */
  predicate PagesAt(sh: HymnSheet, pdf: Pdf, idx: seq<int>, pages: seq<Page>) {
    |pages| == |idx| && forall k :: 0 <= k < |idx| ==> idx[k] in pdf && pages[k] == Prepared(sh, pdf[idx[k]])
  }

  /** One more index either adds its prepared page or, when the document has
      no page there, changes nothing. */
  lemma PagesAtStep(sh: HymnSheet, pdf: Pdf, lo: int, index: int, pages: seq<Page>)
    requires lo <= index
    requires PagesAt(sh, pdf, Found(pdf, lo, index), pages)
    ensures index in pdf ==> PagesAt(sh, pdf, Found(pdf, lo, index + 1), pages + [Prepared(sh, pdf[index])])
    ensures index !in pdf ==> PagesAt(sh, pdf, Found(pdf, lo, index + 1), pages)
  {
    assert Found(pdf, lo, index + 1) == if index in pdf then Found(pdf, lo, index) + [index] else Found(pdf, lo, index);
  }

  /** `doc` is `pdf` after the sheet's pages in `lo .. hi-1` have been
      prepared in place: `setBounds` changes the document's own page, so
      every later reader of the document sees the crop. */
  predicate CroppedOver(sh: HymnSheet, pdf: Pdf, lo: int, hi: int, doc: Pdf) {
    && doc.Keys == pdf.Keys
    && forall i :: i in pdf ==> doc[i] == if lo <= i < hi then Prepared(sh, pdf[i]) else pdf[i]
  }

  /** Preparing a page a second time changes nothing. */
  lemma PreparedTwice(sh: HymnSheet, p: Page)
    ensures Prepared(sh, Prepared(sh, p)) == Prepared(sh, p)
  {
  }

  /** Cropping the cropped document over the same range changes nothing, and
      the pages in the range are already as a second call would prepare them. */
  lemma CroppedTwice(sh: HymnSheet, pdf: Pdf, lo: int, hi: int, doc: Pdf, doc2: Pdf)
    requires CroppedOver(sh, pdf, lo, hi, doc) && CroppedOver(sh, doc, lo, hi, doc2)
    ensures doc2 == doc
    ensures forall i :: i in doc && lo <= i < hi ==> Prepared(sh, doc[i]) == doc[i]
  {
    forall i | i in doc ensures doc2[i] == doc[i] && (lo <= i < hi ==> Prepared(sh, doc[i]) == doc[i]) {
      PreparedTwice(sh, pdf[i]);
    }
    assert doc2.Keys == doc.Keys;
  }

  /** One more index crops the document's page there, if it has one. */
  lemma CroppedStep(sh: HymnSheet, pdf: Pdf, lo: int, index: int, doc: Pdf)
    requires lo <= index && CroppedOver(sh, pdf, lo, index, doc)
    ensures index in pdf ==> CroppedOver(sh, pdf, lo, index + 1, doc[index := Prepared(sh, pdf[index])])
    ensures index !in pdf ==> CroppedOver(sh, pdf, lo, index + 1, doc)
  {
  }

  /** `getSheetPages(from:)`: walks `startPage ... startPage + pageCount - 1`
      in order, skips indices without a page, crops shared pages in the
      document itself, and gives nil when no page was found. The pages handed
      out are the document's own, so `doc` is the document afterwards. The
      closed range traps unless `pageCount >= 1`, and computing its upper end
      traps on overflow. */
  method GetSheetPages(sh: HymnSheet, pdf: Pdf) returns (r: Option<seq<Page>>, doc: Pdf)
    requires sh.pageCount >= 1 && sh.startPage + sh.pageCount <= IntMax
    ensures r.None? <==> forall i :: sh.startPage <= i < sh.startPage + sh.pageCount ==> i !in pdf
    ensures r.Some? ==> PagesAt(sh, pdf, Found(pdf, sh.startPage, sh.startPage + sh.pageCount), r.value)
    ensures r.Some? ==> 0 < |r.value| <= sh.pageCount
    ensures CroppedOver(sh, pdf, sh.startPage, sh.startPage + sh.pageCount, doc)
    ensures r.Some? ==> forall k :: 0 <= k < |r.value| ==>
              r.value[k] == doc[Found(pdf, sh.startPage, sh.startPage + sh.pageCount)[k]]
  {
    var pages;
    pages, doc := CollectPages(sh, pdf, sh.startPage, sh.startPage + sh.pageCount);
    SheetPagesResult(sh, pdf, sh.startPage, sh.startPage + sh.pageCount, pages, doc);
    r := if |pages| == 0 then None else Some(pages);
  }

  /** The loop of `getSheetPages` over `lo ... hi - 1`: each index with a
      page contributes that page, prepared in the document itself. */
  method CollectPages(sh: HymnSheet, pdf: Pdf, lo: int, hi: int) returns (pages: seq<Page>, doc: Pdf)
    requires lo <= hi
    ensures PagesAt(sh, pdf, Found(pdf, lo, hi), pages)
    ensures CroppedOver(sh, pdf, lo, hi, doc)
  {
    pages := [];
    doc := pdf;
    var index := lo;
    while index <= hi - 1
      invariant lo <= index <= hi
      invariant PagesAt(sh, pdf, Found(pdf, lo, index), pages)
      invariant CroppedOver(sh, pdf, lo, index, doc)
    {
      PagesAtStep(sh, pdf, lo, index, pages);
      CroppedStep(sh, pdf, lo, index, doc);
      if index in pdf {
        var page := Prepared(sh, pdf[index]);
        doc := doc[index := page];
        pages := pages + [page];
      }
      index := index + 1;
    }
  }

  /** What the loop of `getSheetPages` leaves behind: no page exactly when the
      range has none, at most one page per index, and the pages handed out
      taken from the cropped document. */
  lemma SheetPagesResult(sh: HymnSheet, pdf: Pdf, lo: int, hi: int, pages: seq<Page>, doc: Pdf)
    requires lo <= hi
    requires PagesAt(sh, pdf, Found(pdf, lo, hi), pages)
    requires CroppedOver(sh, pdf, lo, hi, doc)
    ensures |pages| == 0 <==> forall i :: lo <= i < hi ==> i !in pdf
    ensures |pages| <= hi - lo
    ensures forall k :: 0 <= k < |pages| ==> pages[k] == doc[Found(pdf, lo, hi)[k]]
  {
    var found := Found(pdf, lo, hi);
    if |pages| == 0 {
      assert forall i :: lo <= i < hi && i in pdf ==> i in found;
    } else {
      assert found[0] in pdf;
    }
  }

  /** In a document whose pages know their own index, a sheet's pages come
      out in increasing index order, all inside the sheet's range. */
  lemma SheetPagesAscending(sh: HymnSheet, pdf: Pdf, pages: seq<Page>)
    requires sh.pageCount >= 1
    requires forall i :: i in pdf ==> pdf[i].index == i
    requires PagesAt(sh, pdf, Found(pdf, sh.startPage, sh.startPage + sh.pageCount), pages)
    ensures forall k, m :: 0 <= k < m < |pages| ==> pages[k].index < pages[m].index
    ensures forall k :: 0 <= k < |pages| ==> sh.startPage <= pages[k].index < sh.startPage + sh.pageCount
  {
    var found := Found(pdf, sh.startPage, sh.startPage + sh.pageCount);
    assert forall k :: 0 <= k < |pages| ==> pages[k].index == found[k];
  }
}
