/** mapped_region (mapped_region.hpp): page arithmetic of mapping, shrinking, flushing and closing a region of
    the address space.  The kernel is a set of mapped pages. */
module MappedRegion {
  import opened Words

  /** `page` is the page size and `limit` the end of the user address space, at least a page below 2^w. */
  datatype Machine = Machine(w: nat, page: nat, limit: nat)

  predicate ValidMachine(m: Machine) {
    m.page > 0 && m.limit % m.page == 0 && m.limit + m.page <= Pow2(m.w)
  }

  /** The page numbers from `lo` to `hi`. */
  function Span(lo: int, hi: int): (r: set<int>)
    ensures forall q :: q in r <==> lo <= q <= hi
    decreases hi - lo
  {
    if hi < lo then {} else Span(lo, hi - 1) + {hi}
  }

  /** The pages that a range of addresses touches. */
  function Pages(m: Machine, start: int, len: int): set<int>
    requires m.page > 0
  {
    if len <= 0 then {} else Span(start / m.page, (start + len - 1) / m.page)
  }

  /** The fields of a region and the pages mapped in the process, by this region or by others; `base` is 0
      when there is no mapping. */
  datatype State = State(base: nat, size: nat, pageOffset: nat, mapped: set<int>)

  predicate ValidState(m: Machine, s: State) {
    && ValidMachine(m)
    && (s.base != 0 ==>
          && s.pageOffset < m.page && s.pageOffset < s.base && (s.base - s.pageOffset) % m.page == 0
          && s.pageOffset + s.size > 0 && s.base + s.size <= m.limit
          && PagesOf(m, s) <= s.mapped)
  }

  /** The pages the region owns. */
  function PagesOf(m: Machine, s: State): set<int>
    requires m.page > 0
  {
    if s.base == 0 then {} else Pages(m, s.base - s.pageOffset, s.pageOffset + s.size)
  }

  // ---------- page arithmetic

  lemma DivShift(p: int, k: int, x: int)
    requires p > 0
    ensures (p * k + x) / p == k + x / p && (p * k + x) % p == x % p
  {
    DivModUnique(p * k + x, p, k + x / p, x % p);
  }

  lemma DivMonotone(p: int, x: int, y: int)
    requires p > 0 && x <= y
    ensures x / p <= y / p
  {
    if y / p < x / p {
      MulMonotone(p, y / p + 1, x / p);
    }
  }

  /** The pages of a range that starts `k` pages after an aligned address. */
  lemma PagesAt(m: Machine, start: int, k: int, len: int)
    requires m.page > 0 && start % m.page == 0 && len > 0
    ensures (start + m.page * k) % m.page == 0
    ensures Pages(m, start + m.page * k, len) == Span(start / m.page + k, start / m.page + k + (len - 1) / m.page)
  {
    var f := start / m.page + k;
    assert start + m.page * k == m.page * f;
    DivShift(m.page, f, 0);
    DivShift(m.page, f, len - 1);
  }

  lemma PagesFrom(m: Machine, start: int, len: int)
    requires m.page > 0 && start % m.page == 0 && len > 0
    ensures Pages(m, start, len) == Span(start / m.page, start / m.page + (len - 1) / m.page)
  {
    PagesAt(m, start, 0, len);
  }

  lemma SpanSplit(lo: int, mid: int, hi: int)
    requires lo <= mid + 1 && mid <= hi
    ensures Span(lo, mid) <= Span(lo, hi) && Span(mid + 1, hi) <= Span(lo, hi)
    ensures Span(lo, hi) - Span(lo, mid) == Span(mid + 1, hi)
    ensures Span(lo, hi) - Span(mid + 1, hi) == Span(lo, mid)
  {
  }

  /** new_pages of a back shrink: the pages that `n` bytes from an aligned address need. */
  function PageCount(m: Machine, n: int): int
    requires m.page > 0
  {
    (n - 1) / m.page + 1
  }

  lemma PageCountBounds(m: Machine, n: int)
    requires m.page > 0 && n > 0
    ensures n <= m.page * PageCount(m, n) < n + m.page && PageCount(m, n) > 0
  {
    DivMonotone(m.page, 0, n - 1);
  }

  /** `c` whole pages end inside the page before the `c`-th. */
  lemma LastOfPages(p: int, c: int)
    requires p > 0
    ensures (p * c - 1) / p == c - 1
  {
    DivModUnique(p * c - 1, p, c - 1, p - 1);
  }

  /** How many pages lie past the `c` pages that the first n' of `n` bytes need. */
  lemma PagesPast(m: Machine, n: int, n': int, c: int, kept: int)
    requires m.page > 0 && 0 < n' <= n && c == PageCount(m, n') && kept == m.page * c
    ensures c - 1 == (n' - 1) / m.page <= (n - 1) / m.page && c > 0
    ensures n > kept ==> c + (n - kept - 1) / m.page == (n - 1) / m.page
    ensures n <= kept ==> (n - 1) / m.page == c - 1
  {
    DivMonotone(m.page, 0, n' - 1);
    DivMonotone(m.page, n' - 1, n - 1);
    if n > kept {
      DivShift(m.page, c, n - kept - 1);
    } else {
      DivMonotone(m.page, n - 1, kept - 1);
      LastOfPages(m.page, c);
    }
  }

  /** Pages of a back shrink of a range of `n` bytes to n': what lies past the new pages is what is lost. */
  lemma BackPages(m: Machine, start: int, n: int, n': int, kept: int)
    requires m.page > 0 && start % m.page == 0 && 0 < n' <= n && kept == m.page * PageCount(m, n')
    ensures Pages(m, start, n') <= Pages(m, start, n)
    ensures Pages(m, start + kept, n - kept) == Pages(m, start, n) - Pages(m, start, n')
    ensures (start + kept) % m.page == 0
  {
    var c, f := PageCount(m, n'), start / m.page;
    PagesPast(m, n, n', c, kept);
    PagesFrom(m, start, n);
    PagesFrom(m, start, n');
    PagesAt(m, start, c, if n > kept then n - kept else 1);
    SpanSplit(f, f + c - 1, f + (n - 1) / m.page);
  }

  /** The whole pages below byte `d`, in bytes. */
  lemma WholePages(p: int, d: int)
    requires p > 0 && d >= 0
    ensures p * (d / p) == d - d % p && 0 <= p * (d / p) <= d && 0 <= d / p
  {
    DivMonotone(p, 0, d);
  }

  lemma NoPages(p: int, k: int)
    requires p > 0 && k >= 0
    ensures p * k == 0 <==> k == 0
    ensures p * k >= 0
  {
    if k > 0 {
      MulMonotone(p, 1, k);
    }
  }

  /** The pages of `n` bytes are the `k` whole pages below byte `d` and the pages of the rest. */
  lemma PagesBelow(p: int, n: int, d: int, k: int)
    requires p > 0 && 0 <= d < n && k == d / p
    ensures 0 <= k <= (n - 1) / p && k + (n - p * k - 1) / p == (n - 1) / p
  {
    DivMonotone(p, 0, d);
    DivMonotone(p, d, n - 1);
    DivShift(p, k, n - p * k - 1);
  }

  /** Pages of a front shrink: dropping `d` bytes of an aligned range of `n` releases the `k` whole pages
      below the one that holds the new first byte. */
  lemma FrontPages(m: Machine, start: int, n: int, d: int, k: int)
    requires m.page > 0 && start % m.page == 0 && 0 <= d < n && k == d / m.page
    ensures 0 <= m.page * k <= d && d - m.page * k == d % m.page
    ensures (start + m.page * k) % m.page == 0
    ensures Pages(m, start + m.page * k, n - m.page * k) <= Pages(m, start, n)
    ensures Pages(m, start, m.page * k) == Pages(m, start, n) - Pages(m, start + m.page * k, n - m.page * k)
  {
    var f := start / m.page;
    WholePages(m.page, d);
    PagesBelow(m.page, n, d, k);
    NoPages(m.page, k);
    LastOfPages(m.page, k);
    PagesFrom(m, start, n);
    PagesAt(m, start, k, n - m.page * k);
    if k > 0 {
      PagesFrom(m, start, m.page * k);
    }
    SpanSplit(f, f + k - 1, f + (n - 1) / m.page);
  }

  // ---------- what the calls do to the pages

  datatype Shrink = Shrink(bytes: nat, fromBack: bool)

  function Closed(m: Machine, s: State): State
    requires m.page > 0
  {
    if s.base == 0 then s else s.(base := 0, mapped := s.mapped - PagesOf(m, s))
  }

  /** The region that a shrink leaves, before any page is given back: the user's range loses `bytes` at one
      end, and the pages are those that still hold a byte of it. */
  function Resized(m: Machine, s: State, call: Shrink): State
    requires m.page > 0 && call.bytes < s.size
  {
    var base := if call.fromBack then s.base else s.base + call.bytes;
    s.(base := base, size := s.size - call.bytes, pageOffset := base % m.page)
  }

  /** A shrink releases exactly the pages the region no longer needs. */
  function Shrunk(m: Machine, s: State, call: Shrink): State
    requires m.page > 0
  {
    if s.base == 0 || call.bytes > s.size then s
    else if call.bytes == s.size then Closed(m, s)
    else
      var s' := Resized(m, s, call);
      s'.(mapped := s.mapped - (PagesOf(m, s) - PagesOf(m, s')))
  }

  /** Whether the byte count of the range to release is not negative, so that size_t can hold it. */
  predicate CountFits(m: Machine, s: State, call: Shrink)
    requires m.page > 0
  {
    call.fromBack ==> s.pageOffset + s.size >= m.page * PageCount(m, s.size + s.pageOffset - call.bytes)
  }

  /** What the caller is told. */
  predicate ShrinkSucceeds(m: Machine, s: State, call: Shrink)
    requires m.page > 0
  {
    s.base != 0 && call.bytes <= s.size && (call.bytes < s.size ==> CountFits(m, s, call))
  }

  // ---------- what the calls hand to munmap

  /** A range of addresses given to munmap. */
  datatype Range = Range(start: int, len: int)

  /** The kernel takes whole pages: it refuses a range unless its start is aligned and it is not empty and
      inside the user address space. */
  predicate Accepted(m: Machine, r: Range)
    requires m.page > 0
  {
    r.start % m.page == 0 && 0 <= r.start && 0 < r.len && r.start + r.len <= m.limit
  }

  /** The pages a call of munmap releases. */
  function Handed(m: Machine, r: Range): set<int>
    requires m.page > 0
  {
    if Accepted(m, r) then Pages(m, r.start, r.len) else {}
  }

  /** priv_map_address and priv_map_size, in words. */
  function CloseRange(m: Machine, s: State): Range {
    Range(s.base - s.pageOffset, Wrap(m.w, s.size + s.pageOffset))
  }

  /** The range that priv_shrink_param_check computes when something of the region is left. */
  function ShrinkRange(m: Machine, s: State, call: Shrink): Range
    requires m.page > 0
  {
    var start := s.base - s.pageOffset;
    if call.fromBack then
      var kept := m.page * PageCount(m, s.size + s.pageOffset - call.bytes);
      Range(start + kept, Wrap(m.w, s.pageOffset + s.size - kept))
    else Range(start, m.page * ((s.pageOffset + call.bytes) / m.page))
  }

  /** The calls of munmap that shrink_by and priv_close make. */
  function CloseUnmaps(m: Machine, s: State): seq<Range> {
    if s.base == 0 then [] else [CloseRange(m, s)]
  }

  function ShrinkUnmaps(m: Machine, s: State, call: Shrink): seq<Range>
    requires m.page > 0
  {
    if s.base == 0 || call.bytes > s.size then []
    else if call.bytes == s.size then CloseUnmaps(m, s)
    else if ShrinkRange(m, s, call).len == 0 then [] else [ShrinkRange(m, s, call)]
  }

  /** The pages that some calls of munmap release together. */
  function HandedBy(m: Machine, unmaps: seq<Range>): set<int>
    requires m.page > 0
  {
    if unmaps == [] then {} else Handed(m, unmaps[0]) + HandedBy(m, unmaps[1..])
  }

  lemma HandedByOne(m: Machine, r: Range)
    requires m.page > 0
    ensures HandedBy(m, []) == {} && HandedBy(m, [r]) == Handed(m, r)
  {
    assert [r][1..] == [];
  }

  /** What is to be shown of a range: its pages are those the region no longer needs, or its length wrapped
      when the region needs them all. */
  ghost predicate IsRange(m: Machine, s: State, call: Shrink, r: Range)
    requires m.page > 0 && call.bytes < s.size
  {
    var pages, pages' := PagesOf(m, s), PagesOf(m, Resized(m, s, call));
    && r.start >= 0 && r.len >= 0
    && if CountFits(m, s, call) then
         r.start % m.page == 0 && r.start + r.len <= m.limit && Pages(m, r.start, r.len) == pages - pages'
       else r.len + m.page > Pow2(m.w) && pages' == pages
  }

  lemma ResizedPages(m: Machine, s: State, call: Shrink)
    requires ValidState(m, s) && s.base != 0 && call.bytes < s.size
    ensures var s' := Resized(m, s, call);
            && s'.pageOffset < m.page && s'.pageOffset < s'.base && (s'.base - s'.pageOffset) % m.page == 0
            && s'.pageOffset + s'.size > 0 && s'.base + s'.size <= m.limit
            && PagesOf(m, s') <= PagesOf(m, s)
            && (call.fromBack ==> s'.pageOffset == s.pageOffset)
            && (!call.fromBack ==> s'.pageOffset == (s.pageOffset + call.bytes) % m.page)
  {
    if call.fromBack {
      ResizedBack(m, s, call.bytes);
    } else {
      ResizedFront(m, s, call.bytes);
    }
  }

  lemma OffsetFromAligned(p: int, start: int, d: int)
    requires p > 0 && start % p == 0 && d >= 0
    ensures (start + d) % p == d % p && (start + d - d % p) % p == 0
    ensures d < p ==> d % p == d
  {
    var f := start / p;
    assert start == p * f;
    DivShift(p, f, d);
    WholePages(p, d);
    DivShift(p, f, p * (d / p));
    DivShift(p, d / p, 0);
    if d < p {
      DivModUnique(d, p, 0, d);
    }
  }

  lemma ResizedBack(m: Machine, s: State, bytes: nat)
    requires ValidState(m, s) && s.base != 0 && bytes < s.size
    ensures var s' := Resized(m, s, Shrink(bytes, true));
            s'.base == s.base && s'.pageOffset == s.pageOffset && PagesOf(m, s') <= PagesOf(m, s)
  {
    var start, n' := s.base - s.pageOffset, s.pageOffset + s.size - bytes;
    OffsetFromAligned(m.page, start, s.pageOffset);
    BackPages(m, start, s.pageOffset + s.size, n', m.page * PageCount(m, n'));
  }

  lemma ResizedFront(m: Machine, s: State, bytes: nat)
    requires ValidState(m, s) && s.base != 0 && bytes < s.size
    ensures var s' := Resized(m, s, Shrink(bytes, false));
            && s'.pageOffset == (s.pageOffset + bytes) % m.page && s'.pageOffset < m.page && s'.pageOffset < s'.base
            && (s'.base - s'.pageOffset) % m.page == 0 && PagesOf(m, s') <= PagesOf(m, s)
  {
    var start, d := s.base - s.pageOffset, s.pageOffset + bytes;
    OffsetFromAligned(m.page, start, d);
    WholePages(m.page, d);
    FrontPages(m, start, s.pageOffset + s.size, d, d / m.page);
  }

  /** Every call keeps the state valid: the map address stays page aligned, the user's range inside the pages
      owned, and the pages owned mapped. */
  lemma ShrinkKeepsValid(m: Machine, s: State, call: Shrink)
    requires ValidState(m, s)
    ensures ValidState(m, Shrunk(m, s, call))
    ensures PagesOf(m, Shrunk(m, s, call)) <= PagesOf(m, s)
    ensures Shrunk(m, s, call).mapped == s.mapped - (PagesOf(m, s) - PagesOf(m, Shrunk(m, s, call)))
  {
    if s.base != 0 && call.bytes < s.size {
      ResizedPages(m, s, call);
    }
  }

  /** A back shrink is reported as a failure exactly when it gives no page up and the end of the region is not
      page aligned. */
  lemma ShrinkReports(m: Machine, s: State, bytes: nat)
    requires ValidState(m, s) && s.base != 0 && bytes < s.size
    ensures var call := Shrink(bytes, true);
            ShrinkSucceeds(m, s, call) <==>
            PagesOf(m, Shrunk(m, s, call)) != PagesOf(m, s) || (s.base + s.size) % m.page == 0
  {
    var n, n' := s.pageOffset + s.size, s.pageOffset + s.size - bytes;
    var start, c := s.base - s.pageOffset, PageCount(m, n');
    ResizedPages(m, s, Shrink(bytes, true));
    EndAligned(m.page, start, n, c);
    LastPage(m, start, n, n', c);
  }

  /** Bytes from an aligned address that fill more than c - 1 pages and no more than `c` end on a page boundary
      exactly when they fill `c` pages. */
  lemma EndAligned(p: int, start: int, n: int, c: int)
    requires p > 0 && start % p == 0
    ensures p * c == n ==> (start + n) % p == 0
    ensures p * (c - 1) < n < p * c ==> (start + n) % p != 0
  {
    var f := start / p;
    assert start == p * f;
    if p * c == n {
      AlignedBytes(p, f, n, c, 0);
    } else if p * (c - 1) < n < p * c {
      assert p * (c - 1) + p == p * c;
      AlignedBytes(p, f, n, c - 1, n - p * (c - 1));
    }
  }

  lemma AlignedBytes(p: int, f: int, n: int, c: int, r: int)
    requires p > 0 && n == p * c + r && 0 <= r < p
    ensures (p * f + n) % p == r
  {
    assert p * f + p * c == p * (f + c);
    DivModUnique(p * f + n, p, f + c, r);
  }

  lemma OnePageLess(p: int, c: int, n: int)
    requires p * c < n + p
    ensures p * (c - 1) < n
  {
    assert p * (c - 1) == p * c - p;
  }

  /** Where the pages of n' of the first `n` bytes end. */
  lemma LastPage(m: Machine, start: int, n: int, n': int, c: int)
    requires m.page > 0 && start % m.page == 0 && 0 < n' <= n && c == PageCount(m, n')
    ensures m.page * (c - 1) < n
    ensures n > m.page * c <==> Pages(m, start, n) != Pages(m, start, n')
  {
    PageCountBounds(m, n');
    OnePageLess(m.page, c, n);
    PagesPast(m, n, n', c, m.page * c);
    SpansDiffer(m, start, n, n', c);
    if n > m.page * c {
      DivMonotone(m.page, 0, n - m.page * c - 1);
    }
  }

  lemma SpansDiffer(m: Machine, start: int, n: int, n': int, c: int)
    requires m.page > 0 && start % m.page == 0 && 0 < n' && 0 < n && (n' - 1) / m.page == c - 1 >= 0
    ensures (n - 1) / m.page == c - 1 ==> Pages(m, start, n) == Pages(m, start, n')
    ensures (n - 1) / m.page >= c ==> Pages(m, start, n) != Pages(m, start, n')
  {
    PagesFrom(m, start, n);
    PagesFrom(m, start, n');
    if (n - 1) / m.page >= c {
      assert start / m.page + (n - 1) / m.page in Pages(m, start, n);
    }
  }

  /** The page of each byte of the user's range is mapped. */
  lemma UserRangeMapped(m: Machine, s: State, addr: nat)
    requires ValidState(m, s) && s.base != 0 && s.base <= addr < s.base + s.size
    ensures addr / m.page in PagesOf(m, s) && addr / m.page in s.mapped
  {
    DivMonotone(m.page, s.base - s.pageOffset, addr);
    DivMonotone(m.page, addr, s.base + s.size - 1);
  }

  lemma BackRange(m: Machine, s: State, bytes: nat)
    requires ValidState(m, s) && s.base != 0 && bytes < s.size
    ensures IsRange(m, s, Shrink(bytes, true), ShrinkRange(m, s, Shrink(bytes, true)))
  {
    BackRangeKeeps(m, s, bytes, m.page * PageCount(m, s.size + s.pageOffset - bytes));
  }

  lemma BackRangeKeeps(m: Machine, s: State, bytes: nat, kept: int)
    requires ValidState(m, s) && s.base != 0 && bytes < s.size
    requires kept == m.page * PageCount(m, s.size + s.pageOffset - bytes)
    ensures IsRange(m, s, Shrink(bytes, true),
                    Range(s.base - s.pageOffset + kept, Wrap(m.w, s.pageOffset + s.size - kept)))
  {
    var n := s.pageOffset + s.size;
    PageCountBounds(m, n - bytes);
    BackPages(m, s.base - s.pageOffset, n, n - bytes, kept);
    ResizedPages(m, s, Shrink(bytes, true));
  }

  lemma FrontRange(m: Machine, s: State, bytes: nat)
    requires ValidState(m, s) && s.base != 0 && bytes < s.size
    ensures IsRange(m, s, Shrink(bytes, false), ShrinkRange(m, s, Shrink(bytes, false)))
  {
    var start, d := s.base - s.pageOffset, s.pageOffset + bytes;
    var k := d / m.page;
    FrontPages(m, start, s.pageOffset + s.size, d, k);
    ResizedPages(m, s, Shrink(bytes, false));
    var s' := Resized(m, s, Shrink(bytes, false));
    assert s'.base - s'.pageOffset == start + m.page * k;
    assert s'.pageOffset + s'.size == s.pageOffset + s.size - m.page * k;
  }

  /** The range that the code computes releases exactly the pages the region gives up, and is refused exactly
      when its length wrapped. */
  lemma RangeReleases(m: Machine, s: State, call: Shrink)
    requires ValidState(m, s) && s.base != 0 && call.bytes < s.size
    ensures var r := ShrinkRange(m, s, call);
            && r.start >= 0 && r.len >= 0
            && Handed(m, r) == PagesOf(m, s) - PagesOf(m, Resized(m, s, call))
            && (CountFits(m, s, call) <==> r.len == 0 || Accepted(m, r))
  {
    if call.fromBack {
      BackRange(m, s, call.bytes);
    } else {
      FrontRange(m, s, call.bytes);
    }
    IsRangeReleases(m, s, call, ShrinkRange(m, s, call));
  }

  lemma IsRangeReleases(m: Machine, s: State, call: Shrink, r: Range)
    requires ValidMachine(m) && call.bytes < s.size && IsRange(m, s, call, r)
    ensures Handed(m, r) == PagesOf(m, s) - PagesOf(m, Resized(m, s, call))
    ensures CountFits(m, s, call) <==> r.len == 0 || Accepted(m, r)
  {
  }

  /** Closing hands over exactly the pages of the region. */
  lemma CloseReleases(m: Machine, s: State)
    requires ValidState(m, s) && s.base != 0
    ensures Accepted(m, CloseRange(m, s)) && Handed(m, CloseRange(m, s)) == PagesOf(m, s)
  {
  }

  /** The calls of munmap that a shrink makes release exactly the pages the region gives up: pages it had and
      will not use any more. */
  lemma ShrinkReleases(m: Machine, s: State, call: Shrink)
    requires ValidState(m, s)
    ensures HandedBy(m, ShrinkUnmaps(m, s, call)) == PagesOf(m, s) - PagesOf(m, Shrunk(m, s, call))
  {
    if s.base != 0 && call.bytes < s.size {
      RangeReleases(m, s, call);
      HandedByOne(m, ShrinkRange(m, s, call));
      assert PagesOf(m, Shrunk(m, s, call)) == PagesOf(m, Resized(m, s, call));
    } else if s.base != 0 && call.bytes == s.size {
      CloseReleases(m, s);
      HandedByOne(m, CloseRange(m, s));
    }
  }

  // ---------- any sequence of shrinks, and the final close

  function Run(m: Machine, s: State, calls: seq<Shrink>): State
    requires m.page > 0
    decreases |calls|
  {
    if calls == [] then s else Run(m, Shrunk(m, s, calls[0]), calls[1..])
  }

  /** The pages that the munmap calls of each shrink of a run release, and last those of the close. */
  function Releases(m: Machine, s: State, calls: seq<Shrink>): (r: seq<set<int>>)
    requires m.page > 0
    ensures |r| == |calls| + 1
    decreases |calls|
  {
    if calls == [] then [HandedBy(m, CloseUnmaps(m, s))]
    else [HandedBy(m, ShrinkUnmaps(m, s, calls[0]))] + Releases(m, Shrunk(m, s, calls[0]), calls[1..])
  }

  /** The first release of a run: the pages the first call gives up, or all pages when only the close is left. */
  lemma FirstRelease(m: Machine, s: State, calls: seq<Shrink>)
    requires ValidState(m, s)
    ensures Releases(m, s, calls)[0]
            == if calls == [] then PagesOf(m, s) else PagesOf(m, s) - PagesOf(m, Shrunk(m, s, calls[0]))
  {
    if calls != [] {
      ShrinkReleases(m, s, calls[0]);
    } else if s.base != 0 {
      CloseReleases(m, s);
      HandedByOne(m, CloseRange(m, s));
    }
  }

  lemma {:induction false} RunKeepsValid(m: Machine, s: State, calls: seq<Shrink>)
    requires ValidState(m, s)
    ensures ValidState(m, Run(m, s, calls)) && PagesOf(m, Run(m, s, calls)) <= PagesOf(m, s)
    ensures Run(m, s, calls).mapped == s.mapped - (PagesOf(m, s) - PagesOf(m, Run(m, s, calls)))
    decreases |calls|
  {
    if calls != [] {
      ShrinkKeepsValid(m, s, calls[0]);
      RunKeepsValid(m, Shrunk(m, s, calls[0]), calls[1..]);
    }
  }

  /** The pages released by a run are pages of the region. */
  lemma {:induction false} ReleasesInside(m: Machine, s: State, calls: seq<Shrink>, i: nat)
    requires ValidState(m, s) && i <= |calls|
    ensures Releases(m, s, calls)[i] <= PagesOf(m, s)
    decreases |calls|
  {
    FirstRelease(m, s, calls);
    if i > 0 {
      ShrinkKeepsValid(m, s, calls[0]);
      ReleasesInside(m, Shrunk(m, s, calls[0]), calls[1..], i - 1);
    }
  }

  /** No page is handed to munmap twice over any run and its close. */
  lemma {:induction false} ReleasedOnce(m: Machine, s: State, calls: seq<Shrink>, i: nat, j: nat)
    requires ValidState(m, s) && i < j <= |calls|
    ensures Releases(m, s, calls)[i] !! Releases(m, s, calls)[j]
    decreases |calls|
  {
    var s' := Shrunk(m, s, calls[0]);
    ShrinkKeepsValid(m, s, calls[0]);
    if i > 0 {
      ReleasedOnce(m, s', calls[1..], i - 1, j - 1);
    } else {
      FirstRelease(m, s, calls);
      ReleasesInside(m, s', calls[1..], j - 1);
    }
  }

  /** No page that the region still owns after a run was handed to munmap during it. */
  lemma {:induction false} OwnedNotReleased(m: Machine, s: State, calls: seq<Shrink>, i: nat)
    requires ValidState(m, s) && i < |calls|
    ensures Releases(m, s, calls)[i] !! PagesOf(m, Run(m, s, calls))
    decreases |calls|
  {
    var s' := Shrunk(m, s, calls[0]);
    ShrinkKeepsValid(m, s, calls[0]);
    if i > 0 {
      OwnedNotReleased(m, s', calls[1..], i - 1);
    } else {
      FirstRelease(m, s, calls);
      RunKeepsValid(m, s', calls[1..]);
    }
  }

  /** No page is lost: each page of the region is handed to munmap by some call of the run or by the close. */
  lemma {:induction false} ReleasedSome(m: Machine, s: State, calls: seq<Shrink>, q: int) returns (i: nat)
    requires ValidState(m, s) && q in PagesOf(m, s)
    ensures i <= |calls| && q in Releases(m, s, calls)[i]
    decreases |calls|
  {
    FirstRelease(m, s, calls);
    if calls == [] {
      return 0;
    }
    var s' := Shrunk(m, s, calls[0]);
    ShrinkKeepsValid(m, s, calls[0]);
    if q in PagesOf(m, s') {
      i := ReleasedSome(m, s', calls[1..], q);
      i := i + 1;
    } else {
      return 0;
    }
  }

  /** After any run and the close, the process has lost exactly the pages of the region. */
  lemma RunThenClose(m: Machine, s: State, calls: seq<Shrink>)
    requires ValidState(m, s)
    ensures Closed(m, Run(m, s, calls)).mapped == s.mapped - PagesOf(m, s)
  {
    RunKeepsValid(m, s, calls);
  }

  /** Where the code falls short: a back shrink that frees no whole page of a region whose end is not page
      aligned reports failure, although it shrinks the region. */
  lemma FailsAfterShrinking()
    ensures var m := Machine(16, 256, 0x8000);
            var s := State(0x100, 100, 0, {1});
            && ValidState(m, s) && !ShrinkSucceeds(m, s, Shrink(0, true)) && !ShrinkSucceeds(m, s, Shrink(10, true))
            && Shrunk(m, s, Shrink(10, true)) == s.(size := 90)
  {
    var m := Machine(16, 256, 0x8000);
    var s := State(0x100, 100, 0, {1});
    assert Pow2(16) == 65536 by {
      Pow2Add(8, 8);
    }
    assert Pages(m, 0x100, 100) == {1} && Pages(m, 0x100, 90) == {1};
  }

  // ---------- the code

  datatype Outcome = Mapped | SizeError | SystemError | BusyError

  class Region {
    const m: Machine
    var base: nat
    var size: nat
    var pageOffset: nat
    var mapped: set<int>
    /** The calls of munmap made so far. */
    var unmaps: seq<Range>

    function Now(): State
      reads this
    {
      State(base, size, pageOffset, mapped)
    }

    ghost predicate Valid()
      reads this
    {
      ValidState(m, Now())
    }

    /** An empty region in a process that has `mapped` pages already. */
    constructor (m: Machine, mapped: set<int>)
      requires ValidMachine(m)
      ensures Valid() && this.m == m && Now() == State(0, 0, 0, mapped) && unmaps == []
    {
      this.m, base, size, pageOffset, this.mapped, unmaps := m, 0, 0, 0, mapped, [];
    }

    /** The kernel's munmap.  Its callers owe it ranges of pages that are mapped. */
    method Munmap(start: nat, len: nat) returns (ok: bool)
      requires m.page > 0 && Handed(m, Range(start, len)) <= mapped
      modifies this`mapped, this`unmaps
      ensures unmaps == old(unmaps) + [Range(start, len)]
      ensures ok <==> Accepted(m, Range(start, len))
      ensures mapped == old(mapped) - Handed(m, Range(start, len))
    {
      ok := Accepted(m, Range(start, len));
      mapped := mapped - Handed(m, Range(start, len));
      unmaps := unmaps + [Range(start, len)];
    }

    /** priv_close: gives back the pages from priv_map_address, priv_map_size bytes long. */
    method PrivClose()
      requires m.page > 0 && pageOffset <= base && Handed(m, CloseRange(m, Now())) <= mapped
      modifies this
      ensures base == 0 && size == old(size) && pageOffset == old(pageOffset)
      ensures unmaps == old(unmaps) + CloseUnmaps(m, old(Now()))
      ensures mapped == if old(base) == 0 then old(mapped) else old(mapped) - Handed(m, CloseRange(m, old(Now())))
    {
      if base != 0 {
        var ok := Munmap(base - pageOffset, Wrap(m.w, size + pageOffset));
        base := 0;
      }
    }

    /** Closing a valid region gives back exactly the pages it owns. */
    method Close()
      requires Valid()
      modifies this
      ensures Valid() && Now() == Closed(m, old(Now())) && unmaps == old(unmaps) + CloseUnmaps(m, old(Now()))
    {
      if base != 0 {
        CloseReleases(m, Now());
        PrivClose();
      }
    }

    /** priv_shrink_param_check: fixes the fields and computes the range to give back. */
    method PrivShrinkParamCheck(bytes: nat, fromBack: bool) returns (ok: bool, start: nat, len: nat)
      requires Valid()
      modifies this
      ensures ok <==> old(base) != 0 && bytes <= old(size)
      ensures !ok ==> Now() == old(Now()) && unmaps == old(unmaps)
      ensures ok && bytes == old(size) ==>
                Now() == Closed(m, old(Now())) && len == 0 && unmaps == old(unmaps) + CloseUnmaps(m, old(Now()))
      ensures ok && bytes < old(size) ==>
                && Now() == Resized(m, old(Now()), Shrink(bytes, fromBack)) && unmaps == old(unmaps)
                && Range(start, len) == ShrinkRange(m, old(Now()), Shrink(bytes, fromBack))
    {
      ok, start, len := true, 0, 0;
      if base == 0 || bytes > size {
        return false, 0, 0;
      }
      if bytes == size {
        Close();
        return;
      }
      if fromBack {
        start, len := ShrinkBack(bytes);
      } else {
        start, len := ShrinkFront(bytes);
      }
    }

    method ShrinkBack(bytes: nat) returns (start: nat, len: nat)
      requires Valid() && base != 0 && bytes < size
      modifies this`size
      ensures Now() == Resized(m, old(Now()), Shrink(bytes, true))
      ensures Range(start, len) == ShrinkRange(m, old(Now()), Shrink(bytes, true))
    {
      ResizedPages(m, Now(), Shrink(bytes, true));
      RangeReleases(m, Now(), Shrink(bytes, true));
      var newPages := (size + pageOffset - bytes - 1) / m.page + 1;
      start := base - pageOffset + m.page * newPages;
      len := Wrap(m.w, pageOffset + size - m.page * newPages);
      size := size - bytes;
    }

    method ShrinkFront(bytes: nat) returns (start: nat, len: nat)
      requires Valid() && base != 0 && bytes < size
      modifies this`base, this`size, this`pageOffset
      ensures Now() == Resized(m, old(Now()), Shrink(bytes, false))
      ensures Range(start, len) == ShrinkRange(m, old(Now()), Shrink(bytes, false))
    {
      ResizedPages(m, Now(), Shrink(bytes, false));
      RangeReleases(m, Now(), Shrink(bytes, false));
      start := base - pageOffset;
      pageOffset := pageOffset + bytes;
      len := m.page * (pageOffset / m.page);
      pageOffset := pageOffset % m.page;
      size := size - bytes;
      base := base + bytes;
    }

    /** shrink_by: the pages always end up as they should, but the caller is told so exactly when
        ShrinkSucceeds. */
    method ShrinkBy(bytes: nat, fromBack: bool) returns (ok: bool)
      requires Valid()
      modifies this
      ensures Valid() && Now() == Shrunk(m, old(Now()), Shrink(bytes, fromBack))
      ensures unmaps == old(unmaps) + ShrinkUnmaps(m, old(Now()), Shrink(bytes, fromBack))
      ensures old(base) == 0 || bytes > old(size) ==> !ok && Now() == old(Now())
      ensures old(base) != 0 && bytes == old(size) ==> ok && base == 0
      ensures old(base) != 0 && bytes < old(size) ==>
                base == (if fromBack then old(base) else old(base) + bytes) && size == old(size) - bytes
      ensures old(base) != 0 && bytes < old(size) && !fromBack ==> ok
      ensures ok <==> ShrinkSucceeds(m, old(Now()), Shrink(bytes, fromBack))
    {
      ShrinkKeepsValid(m, Now(), Shrink(bytes, fromBack));
      if base != 0 && bytes < size {
        RangeReleases(m, Now(), Shrink(bytes, fromBack));
      }
      var start, len;
      ok, start, len := PrivShrinkParamCheck(bytes, fromBack);
      if ok && len != 0 {
        ok := Munmap(start, len);
      }
    }

    /** priv_flush_param_check: the range given to msync ends with the range to flush and starts a page
        offset before it; it never leaves the mapping, and is aligned exactly when `offset` is. */
    method PrivFlushParamCheck(offset: nat, numbytes: nat) returns (ok: bool, addr: nat, len: nat)
      requires Valid()
      ensures ok <==> base != 0 && offset < size && numbytes <= size - offset
      ensures ok ==> var n := if numbytes == 0 then size - offset else numbytes;
                     && base - pageOffset <= addr <= base + offset && addr + len == base + offset + n
                     && addr + len <= base + size && len > 0
                     && (addr % m.page == 0 <==> offset % m.page == 0)
                     && Pages(m, base + offset, n) <= Pages(m, addr, len) <= PagesOf(m, Now())
    {
      ok, addr, len := false, 0, 0;
      if base == 0 {
        return;
      }
      if offset >= size || numbytes > size - offset {
        return;
      }
      len := numbytes;
      if len == 0 {
        len := size - offset;
      }
      addr := base - pageOffset + offset;
      ghost var n := len;
      len := len + pageOffset;
      ok := true;
      FlushRange(m, Now(), offset, n);
    }

    /** flush: msync refuses a start that is not page aligned, and a page that is not mapped. */
    method Flush(offset: nat, numbytes: nat) returns (ok: bool)
      requires Valid()
      ensures ok <==> base != 0 && offset < size && numbytes <= size - offset && offset % m.page == 0
    {
      var addr, len;
      ok, addr, len := PrivFlushParamCheck(offset, numbytes);
      if ok {
        ok := addr % m.page == 0 && Pages(m, addr, len) <= mapped;
      }
    }

    /** priv_page_offset_addr_fixup: the distance from the page that holds `offset`, and the address asked
        for moved back by it, in words. */
    method PageOffsetAddrFixup(offset: nat, hint: nat) returns (pageOff: nat, address: nat)
      requires ValidMachine(m) && hint < Pow2(m.w)
      ensures pageOff == offset % m.page && pageOff < m.page && pageOff <= offset && (offset - pageOff) % m.page == 0
      ensures address == MovedHint(m, offset, hint)
      ensures hint >= pageOff ==> address + pageOff == hint || (hint == 0 && address == 0)
    {
      PageRemainder(offset, m.page);
      pageOff := offset - (offset / m.page) * m.page;
      address := hint;
      if address != 0 {
        WrapBack(m.w, address, pageOff);
        address := Wrap(m.w, address - pageOff);
      }
    }

    /** The mapping constructor.  `wanted` is the size asked for, 0 for the rest of the file; `hint` the
        address asked for, 0 for any; `fileSize` what fstat says, negative when it fails; `got` the address
        mmap returns, 0 when it fails.  The region is valid exactly when the length given to mmap did not
        wrap, and is where it was asked to be unless the address moved back became null; on every error the
        pages of the process are as before. */
    method Map(offset: nat, wanted: nat, hint: nat, fileSize: int, got: nat) returns (r: Outcome)
      requires Valid() && base == 0 && wanted < Pow2(m.w) && hint < Pow2(m.w)
      requires got != 0 ==>
                 KernelGives(m, mapped, got, Wrap(m.w, offset % m.page + MapSize(offset, wanted, fileSize)))
      modifies this
      ensures var pageOff := offset % m.page;
              && (r == SizeError <==>
                    && wanted == 0 && fileSize >= 0
                    && (fileSize < offset || fileSize - (offset - pageOff) >= Pow2(m.w)))
              && (r == SystemError <==> (wanted == 0 && fileSize < 0) || (got == 0 && r != SizeError))
              && (r == BusyError <==>
                    && !(wanted == 0 && fileSize < 0) && r != SizeError && got != 0
                    && hint != 0 && hint != pageOff && got + pageOff != hint)
      ensures r != Mapped ==> base == 0 && mapped == old(mapped)
      ensures r == Mapped ==>
                && (hint != 0 && hint != offset % m.page ==> base == hint)
                && (if wanted == 0 then offset + size == fileSize else size == wanted)
                && base == got + offset % m.page
                && (Valid() <==> offset % m.page + size < Pow2(m.w))
                && (Valid() ==> (base - offset) % m.page == 0 && PagesOf(m, Now()) !! old(mapped))
                && (Valid() ==> mapped == old(mapped) + PagesOf(m, Now()))
    {
      var pageOff, address := PageOffsetAddrFixup(offset, hint);
      var sz := wanted;
      if sz == 0 {
        if fileSize < 0 {
          return SystemError;
        }
        if fileSize < offset || fileSize - (offset - pageOff) > Pow2(m.w) - 1 {
          return SizeError;
        }
        sz := fileSize - offset;
      }
      if got == 0 {
        return SystemError;
      }
      HintHeld(m, offset, hint, got, Wrap(m.w, pageOff + sz));
      var held := Attach(got, pageOff, sz, address != 0 && got != address);
      SamePage(m, got, offset, pageOff);
      return if held then Mapped else BusyError;
    }

    /** The end of the constructor, after mmap gave `got`: a mapping at the wrong address is undone. */
    method Attach(got: nat, pageOff: nat, sz: nat, wrongAddress: bool) returns (held: bool)
      requires ValidMachine(m) && got != 0 && pageOff < m.page
      requires KernelGives(m, mapped, got, Wrap(m.w, pageOff + sz))
      modifies this
      ensures held <==> !wrongAddress
      ensures !held ==> base == 0 && mapped == old(mapped)
      ensures held ==> base == got + pageOff && pageOffset == pageOff && size == sz
                       && mapped == old(mapped) + Pages(m, got, Wrap(m.w, pageOff + sz))
                       && (Valid() <==> pageOff + sz < Pow2(m.w))
    {
      MappedState(m, mapped, got, pageOff, sz);
      mapped := mapped + Pages(m, got, Wrap(m.w, pageOff + sz));
      base, pageOffset, size := got + pageOff, pageOff, sz;
      if wrongAddress {
        PrivClose();
      }
      return !wrongAddress;
    }
  }

  /** The address asked for, moved back by the page offset. */
  function MovedHint(m: Machine, offset: nat, hint: nat): nat
    requires m.page > 0
  {
    if hint == 0 then 0 else Wrap(m.w, hint - offset % m.page)
  }

  /** A mapping at the moved address puts the user's range where it was asked to be; an address below the page
      offset wraps beyond the user address space, where nothing is mapped. */
  lemma HintHeld(m: Machine, offset: nat, hint: nat, got: nat, len: nat)
    requires ValidMachine(m) && hint < Pow2(m.w) && 0 < len && got + len <= m.limit
    ensures hint != 0 ==> (got == MovedHint(m, offset, hint) <==> got + offset % m.page == hint)
    ensures hint != 0 ==> (MovedHint(m, offset, hint) == 0 <==> hint == offset % m.page)
  {
    WrapBack(m.w, hint, offset % m.page);
  }

  lemma PageRemainder(offset: nat, p: nat)
    requires p > 0
    ensures offset - (offset / p) * p == offset % p && 0 <= offset % p < p
    ensures offset % p <= offset && (offset - offset % p) % p == 0
  {
    WholePages(p, offset);
    DivShift(p, offset / p, 0);
  }

  /** The size of the region: what was asked for, or the rest of the file. */
  function MapSize(offset: nat, wanted: nat, fileSize: int): int {
    if wanted == 0 then fileSize - offset else wanted
  }

  function MapOutcome(m: Machine, offset: nat, wanted: nat, hint: nat, fileSize: int, got: nat): Outcome
    requires m.page > 0
  {
    if wanted == 0 && fileSize < 0 then SystemError
    else if wanted == 0 && (fileSize < offset || fileSize - (offset - offset % m.page) >= Pow2(m.w)) then SizeError
    else if got == 0 then SystemError
    else if MovedHint(m, offset, hint) != 0 && got != MovedHint(m, offset, hint) then BusyError
    else Mapped
  }

  /** What the kernel promises of a new mapping: whole pages that nobody else uses. */
  ghost predicate KernelGives(m: Machine, mapped: set<int>, got: nat, len: nat)
    requires m.page > 0
  {
    got % m.page == 0 && 0 < len && got + len <= m.limit && Pages(m, got, len) !! mapped
  }

  lemma MappedState(m: Machine, mapped: set<int>, got: nat, pageOff: nat, size: nat)
    requires ValidMachine(m) && got != 0 && pageOff < m.page
    requires KernelGives(m, mapped, got, Wrap(m.w, pageOff + size))
    ensures var s := State(got + pageOff, size, pageOff, mapped + Pages(m, got, Wrap(m.w, pageOff + size)));
            ValidState(m, s) <==> pageOff + size < Pow2(m.w)
    ensures mapped + Pages(m, got, Wrap(m.w, pageOff + size)) - Pages(m, got, Wrap(m.w, pageOff + size)) == mapped
  {
    assert got + pageOff - pageOff == got;
  }

  lemma WrappedLength()
    ensures Pow2(16) == 0x10000 && Wrap(16, 255 + 0xFFFF) == 254
  {
    Pow2Add(8, 8);
    WrapShift(16, 254);
  }

  /** Where the code falls short: a size that wraps when the page offset is added gets fewer bytes mapped than
      the region claims, here 254 of 65535. */
  lemma WrappedMappingHappens()
    ensures var m, len := Machine(16, 256, 0x8000), 254;
            && ValidMachine(m) && Wrap(16, 255 % m.page + MapSize(255, 0xFFFF, 0)) == len
            && KernelGives(m, {}, 0x100, len) && MapOutcome(m, 255, 0xFFFF, 0, 0, 0x100) == Mapped
            && !ValidState(m, State(0x100 + 255, 0xFFFF, 255, Pages(m, 0x100, len)))
  {
    WrappedLength();
  }

  /** A user address and the file offset it shows have the same place in their pages. */
  lemma SamePage(m: Machine, got: nat, offset: nat, pageOff: nat)
    requires m.page > 0 && got % m.page == 0 && pageOff <= offset && (offset - pageOff) % m.page == 0
    ensures (got + pageOff - offset) % m.page == 0
  {
    var a, b := got / m.page, (offset - pageOff) / m.page;
    assert got + pageOff - offset == m.page * (a - b);
    DivShift(m.page, a - b, 0);
  }

  lemma FlushRange(m: Machine, s: State, offset: nat, n: nat)
    requires ValidState(m, s) && s.base != 0 && offset < s.size && 0 < n <= s.size - offset
    ensures var addr := s.base - s.pageOffset + offset;
            && (addr % m.page == 0 <==> offset % m.page == 0)
            && Pages(m, s.base + offset, n) <= Pages(m, addr, n + s.pageOffset) <= PagesOf(m, s)
  {
    var start := s.base - s.pageOffset;
    assert start == m.page * (start / m.page);
    DivShift(m.page, start / m.page, offset);
    DivMonotone(m.page, start, start + offset);
    DivMonotone(m.page, start + offset, s.base + offset);
    DivMonotone(m.page, s.base + offset + n - 1, s.base + s.size - 1);
  }
}
