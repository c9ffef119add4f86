/** `findPaginated`: a 1-based page number becomes the 0-based page request the
    store's paging understands. The arithmetic is Java `int` arithmetic, so
    `page - 1` wraps around at the bottom of the range. */
module Paging {

  const IntMin: int := -0x8000_0000
  const IntMax: int := 0x7fff_ffff

  /** A Java `int`. */
  type Int32 = x: int | IntMin <= x <= IntMax

  /** Java `int` subtraction: the exact difference brought back into range. */
  function Sub32(a: Int32, b: Int32): Int32 {
    var d := a - b;
    if d < IntMin then d + 0x1_0000_0000 else if d > IntMax then d - 0x1_0000_0000 else d
  }

  /** A request for the 0-based page `pageNumber` of `pageSize` items. */
  datatype PageRequest = PageRequest(pageNumber: int, pageSize: int)

  /** The index of the first item a request asks for. */
  function Offset(req: PageRequest): int {
    req.pageNumber * req.pageSize
  }

  function Min(a: int, b: int): int { if a <= b then a else b }

  /** The store's paging contract: a well-formed request (non-negative page,
      positive size) gets the window of at most `pageSize` items starting at its
      offset, empty beyond the end of the listing. */
  function PageWindow<T>(listing: seq<T>, req: PageRequest): (w: seq<T>)
    requires req.pageNumber >= 0 && req.pageSize >= 1
    ensures |w| <= req.pageSize
    ensures Offset(req) < |listing| ==> |w| == req.pageSize || Offset(req) + |w| == |listing|
    ensures Offset(req) >= |listing| ==> w == []
    ensures forall i :: 0 <= i < |w| ==> Offset(req) + i < |listing| && w[i] == listing[Offset(req) + i]
  {
    var from := Offset(req);
    if from >= |listing| then []
    else if from + req.pageSize >= |listing| then listing[from..]
    else listing[from..from + req.pageSize]
  }

  /** A window that starts inside the listing holds a full page, or every item
      from its offset to the end of the listing, whichever is fewer. */
  lemma PageWindowLength<T>(listing: seq<T>, req: PageRequest)
    requires req.pageNumber >= 0 && req.pageSize >= 1
    requires Offset(req) < |listing|
    ensures |PageWindow(listing, req)| == Min(req.pageSize, |listing| - Offset(req))
  {
  }

  /** The request `findPaginated(page, pageSize)` hands to the store: same size,
      page number one lower, except that the lowest `int` wraps to the highest. */
  function FindPaginated(page: Int32, pageSize: Int32): (req: PageRequest)
    ensures req.pageSize == pageSize
    ensures page > IntMin ==> req.pageNumber + 1 == page
    ensures page == IntMin ==> req.pageNumber == IntMax
    ensures page >= 1 ==> Offset(req) == (page - 1) * pageSize
  {
    PageRequest(Sub32(page, 1), pageSize)
  }

  /** Page 1 starts at the beginning of the listing. */
  lemma FirstPageStartsAtZero<T>(listing: seq<T>, pageSize: Int32)
    ensures Offset(FindPaginated(1, pageSize)) == 0
    ensures pageSize >= 1 ==>
      PageWindow(listing, FindPaginated(1, pageSize)) == listing[..Min(pageSize, |listing|)]
  {
  }

  /** Each page starts exactly where the previous one ends. */
  lemma NextPageFollows(page: Int32, pageSize: Int32)
    requires 1 <= page < IntMax
    ensures Offset(FindPaginated(page + 1, pageSize)) == Offset(FindPaginated(page, pageSize)) + pageSize
  {
  }

  /** The first `n` pages laid end to end. */
  function Pages<T>(listing: seq<T>, n: nat, pageSize: Int32): seq<T>
    requires n <= IntMax && pageSize >= 1
  {
    if n == 0 then [] else Pages(listing, n - 1, pageSize) + PageWindow(listing, FindPaginated(n, pageSize))
  }

  /** Where page `n` of a listing of `length` items ends: each page runs
      `pageSize` items past the end of the one before, stopping at the end of
      the listing. */
  function PageEnd(length: nat, n: nat, pageSize: Int32): nat
    requires pageSize >= 1
    decreases n
  {
    if n == 0 then 0 else Min(PageEnd(length, n - 1, pageSize) + pageSize, length)
  }

  /** Page `n` ends after `n * pageSize` items, or at the end of a shorter
      listing. */
  lemma {:induction false} PageEndIsProduct(length: nat, n: nat, pageSize: Int32)
    requires pageSize >= 1
    ensures PageEnd(length, n, pageSize) == Min(n * pageSize, length)
  {
    if n > 0 {
      PageEndIsProduct(length, n - 1, pageSize);
      assert n * pageSize == (n - 1) * pageSize + pageSize;
    }
  }

  /** Page `n` is the slice of the listing between the ends of pages `n - 1`
      and `n`. */
  lemma PageIsSlice<T>(listing: seq<T>, n: nat, pageSize: Int32)
    requires 1 <= n <= IntMax && pageSize >= 1
    ensures PageEnd(|listing|, n - 1, pageSize) <= PageEnd(|listing|, n, pageSize)
    ensures PageWindow(listing, FindPaginated(n, pageSize))
      == listing[PageEnd(|listing|, n - 1, pageSize)..PageEnd(|listing|, n, pageSize)]
  {
    PageEndIsProduct(|listing|, n - 1, pageSize);
  }

  /** The first `n` pages are the first `n - 1` pages followed by the slice
      page `n` covers. */
  lemma PagesStep<T>(listing: seq<T>, n: nat, pageSize: Int32)
    requires 1 <= n <= IntMax && pageSize >= 1
    ensures PageEnd(|listing|, n - 1, pageSize) <= PageEnd(|listing|, n, pageSize)
    ensures Pages(listing, n, pageSize)
      == Pages(listing, n - 1, pageSize) + listing[PageEnd(|listing|, n - 1, pageSize)..PageEnd(|listing|, n, pageSize)]
  {
    PageIsSlice(listing, n, pageSize);
  }

  /** A prefix followed by the slice after it is the longer prefix. */
  lemma PrefixThenSlice<T>(s: seq<T>, lo: nat, hi: nat)
    requires lo <= hi <= |s|
    ensures s[..lo] + s[lo..hi] == s[..hi]
  {
  }

  /** Pages 1 to `n` laid end to end are the listing up to where page `n` ends. */
  lemma {:induction false} PagesReachPageEnd<T>(listing: seq<T>, n: nat, pageSize: Int32)
    requires n <= IntMax && pageSize >= 1
    ensures Pages(listing, n, pageSize) == listing[..PageEnd(|listing|, n, pageSize)]
  {
    if n > 0 {
      var lo, hi := PageEnd(|listing|, n - 1, pageSize), PageEnd(|listing|, n, pageSize);
      var earlier := Pages(listing, n - 1, pageSize);
      assert lo <= hi && Pages(listing, n, pageSize) == earlier + listing[lo..hi] by {
        PagesStep(listing, n, pageSize);
      }
      assert earlier == listing[..lo] by {
        PagesReachPageEnd(listing, n - 1, pageSize);
      }
      PrefixThenSlice(listing, lo, hi);
    }
  }

  /** Pages 1 to `n`, all cut from one and the same listing, joined give that
      listing's first `n * pageSize` items. */
  lemma PagesTile<T>(listing: seq<T>, n: nat, pageSize: Int32)
    requires n <= IntMax && pageSize >= 1
    ensures Pages(listing, n, pageSize) == listing[..Min(n * pageSize, |listing|)]
  {
    PagesReachPageEnd(listing, n, pageSize);
    PageEndIsProduct(|listing|, n, pageSize);
  }
}
