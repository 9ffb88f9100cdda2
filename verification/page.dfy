/** Pagination (util/page.go): a page number and size, or "off" for everything,
    turned into SQL OFFSET/LIMIT, a Postgres array slice, or Go slice bounds. Go's
    int is 64 bits wide and Offset/Limit convert to uint64; both wrap-arounds are
    written out. */
module Paging {
  import opened Common
  import Strs

  const TwoTo64: int := 0x1_0000_0000_0000_0000
  const TwoTo63: int := 0x8000_0000_0000_0000

  type Int64 = x: int | Strs.MinInt64 <= x <= Strs.MaxInt64

  /** Two's-complement wrap of an integer into int64 (Go int arithmetic). */
  function I64(x: int): (r: Int64)
    ensures Strs.MinInt64 <= x <= Strs.MaxInt64 ==> r == x
    ensures (r - x) % TwoTo64 == 0
  {
    var m := (x + TwoTo63) % TwoTo64;
    m - TwoTo63
  }

  /** Conversion of an int64 to uint64: negative values wrap. */
  function U64(x: int): (r: nat)
    ensures r < TwoTo64
    ensures 0 <= x < TwoTo64 ==> r == x
    ensures (r - x) % TwoTo64 == 0
  {
    x % TwoTo64
  }

  datatype Page = Page(page: Int64, perPage: Int64, off: bool)
  {
    /** OFFSET: 0 when off, otherwise page*perPage computed in int64 and read as uint64. */
    function Offset(): (r: nat)
      ensures r < TwoTo64
      ensures off ==> r == 0
      ensures !off && 0 <= page * perPage <= Strs.MaxInt64 ==> r == page * perPage
    {
      if off then 0 else U64(I64(page * perPage))
    }

    /** LIMIT: the largest int64 when off, otherwise perPage read as uint64. */
    function Limit(): (r: nat)
      ensures r < TwoTo64
      ensures off ==> r == Strs.MaxInt64
      ensures !off && perPage >= 0 ==> r == perPage
    {
      if off then Strs.MaxInt64 else U64(perPage)
    }

    /** The bounds DBSlice writes: page*perPage and (page+1)*perPage in int64. */
    function DBSliceBounds(): (b: (Int64, Int64))
      ensures !off && page >= 0 && perPage >= 0 && (page + 1) * perPage <= Strs.MaxInt64 ==>
        b == (page * perPage, (page + 1) * perPage) && b.0 == Offset() && b.1 == Offset() + Limit()
    {
      NextPageStart(if page >= 0 then page else 0, if perPage >= 0 then perPage else 0);
      (I64(page * perPage), I64((page + 1) * perPage))
    }

    /** A Postgres array slice `col[lo:hi]` with DBSlice's bounds, or `col[0:]` when
        off. Postgres reads both bounds as inclusive 1-based positions. */
    function DBSlice(col: string): (r: string)
      ensures Strs.HasPrefix(r, col + "[")
      ensures off ==> r == col + "[0:]"
      ensures !off ==> r == col + "[" + Strs.IntToString(DBSliceBounds().0) + ":" + Strs.IntToString(DBSliceBounds().1) + "]"
    {
      var text :=
        if off then col + "[0:]"
        else col + "[" + Strs.IntToString(I64(page * perPage)) + ":" + Strs.IntToString(I64((page + 1) * perPage)) + "]";
      assert text[..|col| + 1] == col + "[";
      text
    }

    /** The bounds of the corrected slice: the page's first row is 1-based position
        page*perPage + 1. */
    function DBSliceFixedBounds(): (b: (Int64, Int64))
      ensures !off && page >= 0 && perPage >= 0 && (page + 1) * perPage <= Strs.MaxInt64 ==>
        b == (Offset() + 1, Offset() + Limit())
    {
      var (lo, hi) := DBSliceBounds();
      FirstRowFits(this);
      (I64(lo + 1), hi)
    }

    /** DBSlice with a lower bound one higher, so that the slice holds the page's rows
        and no row of the page before. */
    function DBSliceFixed(col: string): (r: string)
      ensures Strs.HasPrefix(r, col + "[")
      ensures off ==> r == col + "[0:]"
      ensures !off ==> r == col + "[" + Strs.IntToString(DBSliceFixedBounds().0) + ":" + Strs.IntToString(DBSliceFixedBounds().1) + "]"
    {
      var text :=
        if off then col + "[0:]"
        else col + "[" + Strs.IntToString(DBSliceFixedBounds().0) + ":" + Strs.IntToString(DBSliceFixedBounds().1) + "]";
      assert text[..|col| + 1] == col + "[";
      text
    }

    /** Go slice bounds for a slice of length slen: everything when off, otherwise
        the page window clamped to slen. */
    function GoSliceStartEnd(slen: Int64): (r: (int, int))
      ensures off ==> r == (0, slen)
      ensures !off ==> r.0 <= slen && r.1 <= slen
    {
      if off then (0, slen)
      else
        var start := I64(page * perPage);
        var start' := if start > slen then slen else start;
        var end := I64(start' + perPage);
        var end' := if end > slen then slen else end;
        (start', end')
    }
  }

  /** The page meaning "no pagination". */
  const NoPagination := Page(0, 0, true)

  /** No pagination keeps everything: offset 0, the largest limit, the whole Go
      slice, and a Postgres slice from the start. */
  lemma NoPaginationWhole(slen: Int64, col: string)
    ensures NoPagination.Offset() == 0 && NoPagination.Limit() == Strs.MaxInt64
    ensures NoPagination.GoSliceStartEnd(slen) == (0, slen)
    ensures NoPagination.DBSlice(col) == col + "[0:]"
  {
  }

  /** The 1-based positions of an n-element Postgres array that the slice a[lo:hi]
      selects, in order: both bounds are inclusive and clamped to the array. */
  function PgSlicePositions(n: nat, lo: int, hi: int): (ks: seq<int>)
    ensures forall k :: k in ks <==> 1 <= k <= n && lo <= k <= hi
    ensures forall i, j :: 0 <= i < j < |ks| ==> ks[i] < ks[j]
  {
    var first := if lo < 1 then 1 else lo;
    var last := if hi > n then n else hi;
    if first > last then []
    else
      var ks := seq(last - first + 1, i => first + i);
      forall k | 1 <= k <= n && lo <= k <= hi
        ensures k in ks
      {
        assert ks[k - first] == k;
      }
      ks
  }

  /** DBSlice as written: in an array with enough rows, the last row of page p,
      1-based position (p+1)*perPage, is also the first row of page p+1, and a page
      after the first selects perPage+1 rows. */
  lemma DBSliceOverlap(p: Page, n: nat)
    requires !p.off && p.page >= 0 && p.perPage > 0
    requires (p.page + 2) * p.perPage <= Strs.MaxInt64 && (p.page + 2) * p.perPage <= n
    ensures p.page + 1 <= Strs.MaxInt64
    ensures var next := p.(page := p.page + 1);
      var (lo, hi) := p.DBSliceBounds();
      var (lo', hi') := next.DBSliceBounds();
      && (p.page + 1) * p.perPage in PgSlicePositions(n, lo, hi)
      && (p.page + 1) * p.perPage in PgSlicePositions(n, lo', hi')
      && |PgSlicePositions(n, lo', hi')| == p.perPage + 1
  {
    var q := p.page + 1;
    NextPageStart(q, p.perPage);
    NextPageStart(p.page, p.perPage);
    assert p.perPage <= q * p.perPage;
  }

  /** The corrected slice selects exactly the rows OFFSET/LIMIT select: 1-based
      position k is in it exactly when its 0-based index k-1 lies in the page
      window. */
  lemma DBSliceFixedIsPage(p: Page, n: nat, k: int)
    requires !p.off && p.page >= 0 && p.perPage >= 0 && (p.page + 1) * p.perPage <= Strs.MaxInt64
    ensures var (lo, hi) := p.DBSliceFixedBounds();
      k in PgSlicePositions(n, lo, hi) <==> 1 <= k <= n && p.Offset() <= k - 1 < p.Offset() + p.Limit()
  {
  }

  /** With the corrected slice, consecutive pages share no row. */
  lemma DBSliceFixedDisjoint(p: Page, n: nat)
    requires !p.off && 0 <= p.page < Strs.MaxInt64 && p.perPage >= 0 && (p.page + 2) * p.perPage <= Strs.MaxInt64
    ensures var next := p.(page := p.page + 1);
      var (lo, hi) := p.DBSliceFixedBounds();
      var (lo', hi') := next.DBSliceFixedBounds();
      forall k :: k in PgSlicePositions(n, lo, hi) ==> k !in PgSlicePositions(n, lo', hi')
  {
    var next := p.(page := p.page + 1);
    NextPageStart(p.page + 1, p.perPage);
    NextPageStart(p.page, p.perPage);
    FirstRowFits(next);
    assert p.DBSliceFixedBounds().1 == (p.page + 1) * p.perPage;
    assert next.DBSliceFixedBounds().0 == (p.page + 1) * p.perPage + 1;
  }

  /** For a non-negative window that fits in int64, the Go slice bounds are a valid
      window of at most perPage elements starting at the page offset when it is inside. */
  lemma GoSliceStartEndBounds(p: Page, slen: Int64)
    requires !p.off && p.page >= 0 && p.perPage >= 0 && slen >= 0
    requires (p.page + 1) * p.perPage <= Strs.MaxInt64
    ensures var (s, e) := p.GoSliceStartEnd(slen);
      && 0 <= s <= e <= slen
      && e - s <= p.perPage
      && s == (if p.Offset() > slen then slen else p.Offset())
      && e == (if p.Offset() + p.perPage > slen then slen else s + p.perPage)
  {
    var n := p.page * p.perPage;
    NextPageStart(p.page, p.perPage);
    assert I64(n) == n;
    assert p.Offset() == n;
    var s := if n > slen then slen else n;
    assert I64(s + p.perPage) == s + p.perPage;
    assert p.GoSliceStartEnd(slen) == (s, if s + p.perPage > slen then slen else s + p.perPage);
  }

  /** The first row of the next page is perPage further on. */
  /** For a page without int64 overflow, the slice's lower bound is below MaxInt64,
      so one more still fits. */
  lemma FirstRowFits(p: Page)
    ensures !p.off && p.page >= 0 && p.perPage >= 0 && (p.page + 1) * p.perPage <= Strs.MaxInt64 ==>
      p.DBSliceBounds().0 < Strs.MaxInt64
  {
    if !p.off && p.page >= 0 && p.perPage >= 0 && (p.page + 1) * p.perPage <= Strs.MaxInt64 {
      NextPageStart(p.page, p.perPage);
      if p.perPage == 0 {
        assert p.page * p.perPage == 0;
      }
    }
  }

  lemma NextPageStart(page: nat, perPage: nat)
    ensures 0 <= page * perPage && page * perPage + perPage == (page + 1) * perPage
  {
  }

  /** ErrBadRequest: an Err with code 400 and the message. */
  function BadRequest(msg: string): (e: Error)
    ensures e.Coded? && e.code == StatusBadRequest
  {
    Coded(StatusBadRequest, msg, map[])
  }

  /** GetPagination over the two query parameters: an Atoi failure of either gives a
      400 with strconv's message and the zero page; -1/-1 means no pagination;
      anything else is copied. */
  function GetPagination(pageParam: string, perPageParam: string): (r: (Page, Option<Error>))
    ensures r.1.Some? <==> Strs.Atoi(pageParam).1.Some? || Strs.Atoi(perPageParam).1.Some?
    ensures r.1.Some? ==> r.0 == Page(0, 0, false) && r.1.value.Coded? && r.1.value.code == StatusBadRequest
    ensures r.1.None? && Strs.Atoi(pageParam).0 == -1 && Strs.Atoi(perPageParam).0 == -1 ==> r.0 == NoPagination
    ensures r.1.None? && !(Strs.Atoi(pageParam).0 == -1 && Strs.Atoi(perPageParam).0 == -1) ==>
      r.0 == Page(Strs.Atoi(pageParam).0, Strs.Atoi(perPageParam).0, false)
  {
    var (page, e1) := Strs.Atoi(pageParam);
    if e1.Some? then (Page(0, 0, false), Some(BadRequest(Strs.NumErrorText(e1.value))))
    else
      var (perPage, e2) := Strs.Atoi(perPageParam);
      if e2.Some? then (Page(0, 0, false), Some(BadRequest(Strs.NumErrorText(e2.value))))
      else if page == -1 && perPage == -1 then (NoPagination, None)
      else (Page(page, perPage, false), None)
  }

  /** Decimal page parameters round-trip: printing an int64 page and size and
      parsing them back gives that page (or no pagination for -1/-1). */
  lemma GetPaginationRoundTrip(page: Int64, perPage: Int64)
    ensures GetPagination(Strs.IntToString(page), Strs.IntToString(perPage)).1 == None
    ensures page == -1 && perPage == -1 ==>
      GetPagination(Strs.IntToString(page), Strs.IntToString(perPage)).0 == NoPagination
    ensures !(page == -1 && perPage == -1) ==>
      GetPagination(Strs.IntToString(page), Strs.IntToString(perPage)).0 == Page(page, perPage, false)
  {
    Strs.AtoiIntToString(page);
    Strs.AtoiIntToString(perPage);
  }
}
