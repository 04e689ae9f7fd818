/** The memory of a constructed object (detail/segment_manager_helper.hpp, block_header of ABI 2): an optional
    index header, the block header, the values, the length of the name and the terminated name, all in one
    buffer whose size is computed in size_t. */
module BlockLayout {
  import opened Words

  /** Sizes, and alignments as exponents of two, for size_type of `w` bits: B the block header, H the header
      of the index, T the type of the values, C the character type of the name. */
  datatype Shape = Shape(w: nat, kB: nat, sizeB: nat, kH: nat, sizeH: nat, kT: nat, kC: nat, sizeC: nat)

  const NAME_LEN_ALIGN: nat := 1
  const NAME_LEN_SIZE: nat := 2

  /** What the compiler guarantees of the types, and sizes far below what size_type can hold. */
  predicate ValidShape(s: Shape) {
    && s.w >= 4 && s.kC <= s.kB && NAME_LEN_ALIGN <= s.kB && (s.kB <= s.kH || s.kB <= s.kT)
    && s.sizeB > 0 && s.sizeH > 0 && s.sizeC > 0
    && Aligned(s.kB, s.sizeB) && Aligned(s.kH, s.sizeH)
    && s.sizeB + s.sizeH + Pow2(s.kH) + Pow2(s.kT) + Pow2(s.kB) <= Pow2(s.w - 3)
  }

  /** The bytes of a terminated name of `namelen` characters. */
  function NameBytes(s: Shape, namelen: nat): nat {
    (namelen + 1) * s.sizeC
  }

  predicate SmallName(s: Shape, nameBytes: nat)
    requires s.w >= 4
  {
    nameBytes + 4 + Pow2(s.kC) <= Pow2(s.w - 3)
  }

  // ---------- rounding

  /** The least multiple of 2^k that is at least `orig`. */
  function Rounded(orig: nat, k: nat): (r: nat)
    ensures orig <= r < orig + Pow2(k)
  {
    if orig == 0 then 0 else if orig <= Pow2(k) then Pow2(k) else Rounded(orig - Pow2(k), k) + Pow2(k)
  }

  lemma {:induction false} RoundedAligned(orig: nat, k: nat)
    ensures Aligned(k, Rounded(orig, k))
    decreases orig
  {
    if orig > Pow2(k) {
      RoundedAligned(orig - Pow2(k), k);
    }
  }

  lemma RoundedLeast(orig: nat, k: nat, x: nat)
    requires orig <= x && Aligned(k, x)
    ensures Rounded(orig, k) <= x
  {
    RoundedAligned(orig, k);
    var r := Rounded(orig, k);
    if x < r {
      WrapDifference(k, r, x);
    }
  }

  function NextMultiple(x: nat, roundTo: nat): nat
    requires roundTo > 0
  {
    (x / roundTo + 1) * roundTo
  }

  /** get_rounded_size and ct_rounded_size, in words of `w` bits. */
  function RoundedSize(w: nat, orig: nat, roundTo: nat): nat
    requires roundTo > 0
  {
    Wrap(w, NextMultiple(Wrap(w, orig - 1), roundTo))
  }

  /** The code rounds to the least multiple, also for 0, where it wraps twice. */
  lemma RoundedByCode(w: nat, orig: nat, k: nat)
    requires k <= w && orig + Pow2(k) <= Pow2(w)
    ensures RoundedSize(w, orig, Pow2(k)) == Rounded(orig, k)
  {
    if orig == 0 {
      LastMultiple(w, k);
      RoundedSizeAs(w, 0, Pow2(k), Pow2(w) - 1, Pow2(w));
    } else {
      RoundedQuotient(orig, k);
      RoundedSizeAs(w, orig, Pow2(k), orig - 1, Rounded(orig, k));
    }
  }

  lemma RoundedSizeAs(w: nat, orig: nat, roundTo: nat, x: nat, r: nat)
    requires orig < Pow2(w) && roundTo > 0 && x == (if orig == 0 then Pow2(w) - 1 else orig - 1)
    requires NextMultiple(x, roundTo) == r <= Pow2(w)
    ensures RoundedSize(w, orig, roundTo) == if r == Pow2(w) then 0 else r
  {
    if orig == 0 {
      WrapShift(w, 0 - 1);
    } else {
      WrapSmall(w, orig - 1);
    }
    WrapShift(w, 0);
    assert NextMultiple(Wrap(w, orig - 1), roundTo) == r;
  }

  lemma LastMultiple(w: nat, k: nat)
    requires k <= w
    ensures NextMultiple(Pow2(w) - 1, Pow2(k)) == Pow2(w)
  {
    Pow2Add(w - k, k);
    QuotientOfLast(Pow2(k), Pow2(w - k), Pow2(w));
  }

  lemma QuotientOfLast(p: nat, c: nat, m: nat)
    requires p > 0 && m > 0 && m == c * p
    ensures NextMultiple(m - 1, p) == m
  {
    DivModUnique(m - 1, p, c - 1, p - 1);
  }

  lemma QuotientStep(x: nat, p: nat)
    requires p > 0
    ensures NextMultiple(x + p, p) == NextMultiple(x, p) + p
  {
    DivModUnique(x + p, p, x / p + 1, x % p);
  }

  lemma {:induction false} RoundedQuotient(orig: nat, k: nat)
    requires orig > 0
    ensures Rounded(orig, k) == NextMultiple(orig - 1, Pow2(k))
    decreases orig
  {
    if orig <= Pow2(k) {
      DivModUnique(orig - 1, Pow2(k), 0, orig - 1);
    } else {
      RoundedQuotient(orig - Pow2(k), k);
      QuotientStep(orig - Pow2(k) - 1, Pow2(k));
    }
  }

  lemma AlignedSum(k: nat, x: int, y: int)
    requires Aligned(k, x)
    ensures Aligned(k, x + y) <==> Aligned(k, y)
  {
    WrapAdd(k, x, y);
  }

  lemma AlignedLess(j: nat, k: nat, x: int)
    requires j <= k && Aligned(k, x)
    ensures Aligned(j, x)
  {
    WrapWrap(j, k, x);
  }

  // ---------- the stored size

  /** The block header keeps the low w - 2 bits of the size of the values. */
  function StoredBytes(w: nat, bytes: nat): nat
    requires w >= 2
  {
    And(bytes, Pow2(w - 2) - 1)
  }

  /** So it keeps the size exactly when that is below 2^(w-2), and otherwise at least 2^(w-2) less. */
  lemma StoredExactly(w: nat, bytes: nat)
    requires w >= 2
    ensures StoredBytes(w, bytes) < Pow2(w - 2)
    ensures StoredBytes(w, bytes) == bytes <==> bytes < Pow2(w - 2)
    ensures StoredBytes(w, bytes) != bytes ==> StoredBytes(w, bytes) + Pow2(w - 2) <= bytes
  {
    AndOnes(bytes, w - 2);
    WrapBelow(w - 2, bytes);
  }

  // ---------- offsets

  /** sm_between_headers: from the index header to the block header. */
  function Between(s: Shape): int {
    s.sizeH + Rounded(s.sizeB, s.kH) - s.sizeB
  }

  function BothHeaders(s: Shape): int {
    Between(s) + s.sizeB
  }

  /** total_prefix of sg_offsets_with_header: from the buffer to the values. */
  function PrefixWithHeader(s: Shape): int {
    Rounded(s.sizeH + Rounded(s.sizeB, s.kH), s.kT)
  }

  function FrontWithHeader(s: Shape): int {
    PrefixWithHeader(s) - BothHeaders(s)
  }

  /** total_prefix of sg_offsets_without_header. */
  function PrefixWithoutHeader(s: Shape): int {
    Rounded(s.sizeB, s.kT)
  }

  function FrontWithoutHeader(s: Shape): int {
    PrefixWithoutHeader(s) - s.sizeB
  }

  function Prefix(s: Shape, header: bool): int {
    if header then PrefixWithHeader(s) else PrefixWithoutHeader(s)
  }

  function NameLengthOffset(s: Shape, stored: nat): nat {
    s.sizeB + Rounded(stored, NAME_LEN_ALIGN)
  }

  function NameOffset(s: Shape, stored: nat): nat {
    Rounded(NameLengthOffset(s, stored) + NAME_LEN_SIZE, s.kC)
  }

  /** total_named_size and total_named_size_with_header. */
  function TotalNamed(s: Shape, header: bool, stored: nat, nameBytes: nat): nat {
    Wrap(s.w, Prefix(s, header) - s.sizeB + NameOffset(s, stored) + nameBytes)
  }

  function TotalAnonymous(s: Shape, stored: nat): nat {
    Wrap(s.w, Prefix(s, false) + stored)
  }

  // ---------- the prefix: headers in front of the values

  lemma WidthBound(s: Shape)
    requires ValidShape(s)
    ensures s.kH < s.w && s.kT < s.w && s.kB < s.w
    ensures Pow2(s.w) == 4 * Pow2(s.w - 2) && Pow2(s.w - 2) == 2 * Pow2(s.w - 3)
  {
    TwoBits(s.w);
    TwoBits(s.w - 1);
    BelowExponent(s.kH, s.w);
    BelowExponent(s.kT, s.w);
    BelowExponent(s.kB, s.w);
  }

  lemma TwoBits(w: nat)
    requires w >= 2
    ensures Pow2(w) == 4 * Pow2(w - 2)
  {
  }

  lemma BelowExponent(k: nat, w: nat)
    ensures Pow2(k) < Pow2(w) ==> k < w
  {
    if k >= w {
      Pow2Monotone(w, k);
    }
  }

  /** The static asserts of sg_offsets_with_header, and that the prefix suits both headers: it is aligned
      for the index header, for the block header and for the values. */
  lemma HeaderPrefix(s: Shape)
    requires ValidShape(s)
    ensures 0 <= FrontWithHeader(s) && s.sizeH <= Between(s)
    ensures Aligned(s.kT, PrefixWithHeader(s)) && Aligned(s.kH, PrefixWithHeader(s))
    ensures Aligned(s.kB, PrefixWithHeader(s))
    ensures Aligned(s.kH, FrontWithHeader(s))
    ensures Aligned(s.kB, PrefixWithHeader(s) - s.sizeB)
    ensures PrefixWithHeader(s) == s.sizeB + s.sizeH + FrontWithHeader(s) + (Between(s) - s.sizeH)
    ensures PrefixWithHeader(s) < s.sizeB + s.sizeH + Pow2(s.kH) + Pow2(s.kT)
  {
    WidthBound(s);
    RoundedAligned(s.sizeB, s.kH);
    var both := s.sizeH + Rounded(s.sizeB, s.kH);
    AlignedSum(s.kH, s.sizeH, Rounded(s.sizeB, s.kH));
    RoundedAligned(both, s.kT);
    var p := PrefixWithHeader(s);
    if s.kH <= s.kT {
      AlignedLess(s.kH, s.kT, p);
    } else {
      AlignedLess(s.kT, s.kH, both);
      RoundedLeast(both, s.kT, both);
    }
    WrapDifference(s.kH, p, both);
    AlignedLess(s.kB, if s.kB <= s.kH then s.kH else s.kT, p);
    WrapDifference(s.kB, p, s.sizeB);
  }

  /** Without an index header the block header stands right before the values; the buffer must then suit the
      block header itself. */
  lemma BarePrefix(s: Shape)
    requires ValidShape(s)
    ensures 0 <= FrontWithoutHeader(s)
    ensures Aligned(s.kT, PrefixWithoutHeader(s)) && Aligned(s.kB, PrefixWithoutHeader(s))
    ensures Aligned(s.kB, FrontWithoutHeader(s))
    ensures PrefixWithoutHeader(s) < s.sizeB + Pow2(s.kT)
  {
    WidthBound(s);
    RoundedAligned(s.sizeB, s.kT);
    var p := PrefixWithoutHeader(s);
    if s.kB <= s.kT {
      AlignedLess(s.kB, s.kT, p);
    } else {
      AlignedLess(s.kT, s.kB, s.sizeB);
      RoundedLeast(s.sizeB, s.kT, s.sizeB);
    }
    WrapDifference(s.kB, p, s.sizeB);
  }

  /** What allocate_aligned must give: an address that suits the values and the first header. */
  predicate GoodBuffer(s: Shape, header: bool, buf: nat) {
    Aligned(s.kT, buf) && Aligned(s.kB, buf) && (header ==> Aligned(s.kH, buf))
  }

  lemma PrefixFits(s: Shape, header: bool)
    requires ValidShape(s)
    ensures s.sizeB <= Prefix(s, header) < Pow2(s.w - 3)
    ensures Aligned(s.kT, Prefix(s, header)) && Aligned(s.kB, Prefix(s, header))
    ensures header ==> 0 <= FrontWithHeader(s) && FrontWithHeader(s) + s.sizeH <= Prefix(s, header) - s.sizeB
  {
    HeaderPrefix(s);
    BarePrefix(s);
  }

  // ---------- the tail: values, name length and name

  lemma TailOffsets(s: Shape, stored: nat)
    requires ValidShape(s) && stored < Pow2(s.w - 2)
    ensures s.sizeB + stored <= NameLengthOffset(s, stored) <= s.sizeB + stored + 1
    ensures NameLengthOffset(s, stored) + NAME_LEN_SIZE <= NameOffset(s, stored) < s.sizeB + stored + 3 + Pow2(s.kC)
    ensures Aligned(NAME_LEN_ALIGN, NameLengthOffset(s, stored)) && Aligned(s.kC, NameOffset(s, stored))
  {
    WidthBound(s);
    Pow2Monotone(s.kC, s.kB);
    RoundedAligned(stored, NAME_LEN_ALIGN);
    AlignedLess(NAME_LEN_ALIGN, s.kB, s.sizeB);
    AlignedSum(NAME_LEN_ALIGN, s.sizeB, Rounded(stored, NAME_LEN_ALIGN));
    RoundedAligned(NameLengthOffset(s, stored) + NAME_LEN_SIZE, s.kC);
  }

  /** Every rounding of the layout is done on numbers small enough for the code to round them so. */
  lemma RoundingsByCode(s: Shape, stored: nat)
    requires ValidShape(s) && stored < Pow2(s.w - 2)
    ensures RoundedSize(s.w, s.sizeB, Pow2(s.kH)) == Rounded(s.sizeB, s.kH)
    ensures RoundedSize(s.w, s.sizeH + Rounded(s.sizeB, s.kH), Pow2(s.kT)) == PrefixWithHeader(s)
    ensures RoundedSize(s.w, s.sizeB, Pow2(s.kT)) == PrefixWithoutHeader(s)
    ensures s.sizeB + RoundedSize(s.w, stored, Pow2(NAME_LEN_ALIGN)) == NameLengthOffset(s, stored)
    ensures RoundedSize(s.w, NameLengthOffset(s, stored) + NAME_LEN_SIZE, Pow2(s.kC)) == NameOffset(s, stored)
  {
    WidthBound(s);
    RoundedByCode(s.w, s.sizeB, s.kH);
    RoundedByCode(s.w, s.sizeH + Rounded(s.sizeB, s.kH), s.kT);
    RoundedByCode(s.w, s.sizeB, s.kT);
    TailByCode(s, stored);
  }

  lemma TailByCode(s: Shape, stored: nat)
    requires ValidShape(s) && stored < Pow2(s.w - 2)
    ensures RoundedSize(s.w, stored, Pow2(NAME_LEN_ALIGN)) == Rounded(stored, NAME_LEN_ALIGN)
    ensures RoundedSize(s.w, NameLengthOffset(s, stored) + NAME_LEN_SIZE, Pow2(s.kC)) == NameOffset(s, stored)
  {
    WidthBound(s);
    Pow2Monotone(s.kC, s.kB);
    Pow2Monotone(1, s.w - 3);
    RoundedByCode(s.w, stored, NAME_LEN_ALIGN);
    RoundedByCode(s.w, NameLengthOffset(s, stored) + NAME_LEN_SIZE, s.kC);
  }

  lemma TotalWith(s: Shape, header: bool, stored: nat, nameBytes: nat)
    requires ValidShape(s) && stored < Pow2(s.w - 2) && SmallName(s, nameBytes)
    ensures TotalNamed(s, header, stored, nameBytes)
            == Prefix(s, header) - s.sizeB + NameOffset(s, stored) + nameBytes
            < Prefix(s, header) + stored + Pow2(s.w - 2)
  {
    var prefix, offset := Prefix(s, header), NameOffset(s, stored);
    WidthBound(s);
    PrefixFits(s, header);
    TailOffsets(s, stored);
    WrapSmall(s.w, prefix - s.sizeB + offset + nameBytes);
  }

  /** The size computed for a named block does not wrap, and ends exactly with the name and its terminator. */
  lemma TotalExact(s: Shape, header: bool, stored: nat, namelen: nat)
    requires ValidShape(s) && stored < Pow2(s.w - 2) && SmallName(s, NameBytes(s, namelen))
    ensures TotalNamed(s, header, stored, NameBytes(s, namelen))
            == Prefix(s, header) - s.sizeB + NameOffset(s, stored) + (namelen + 1) * s.sizeC
            < Prefix(s, header) + stored + Pow2(s.w - 2)
  {
    TotalWith(s, header, stored, NameBytes(s, namelen));
  }

  lemma AnonymousExact(s: Shape, stored: nat)
    requires ValidShape(s) && stored < Pow2(s.w - 2)
    ensures TotalAnonymous(s, stored) == Prefix(s, false) + stored
  {
    WidthBound(s);
    PrefixFits(s, false);
    WrapSmall(s.w, Prefix(s, false) + stored);
  }

  /** The parts of a named block, in order, as distances from the buffer. */
  datatype Parts = Parts(indexHeader: int, blockHeader: int, values: int, nameLength: int, name: int, total: int)

  function PartsOf(s: Shape, header: bool, stored: nat, nameBytes: nat): Parts {
    var blockHeader := Prefix(s, header) - s.sizeB;
    Parts(if header then FrontWithHeader(s) else blockHeader,
          blockHeader, blockHeader + s.sizeB, blockHeader + NameLengthOffset(s, stored),
          blockHeader + NameOffset(s, stored), TotalNamed(s, header, stored, nameBytes))
  }

  /** Each part ends before the next begins and the last inside the buffer, for values of `bytes` bytes. */
  predicate Disjoint(s: Shape, header: bool, p: Parts, bytes: nat, nameBytes: nat) {
    && 0 <= p.indexHeader && p.indexHeader + (if header then s.sizeH else 0) <= p.blockHeader
    && p.blockHeader + s.sizeB <= p.values && p.values + bytes <= p.nameLength
    && p.nameLength + NAME_LEN_SIZE <= p.name && p.name + nameBytes <= p.total
  }

  predicate AllAligned(s: Shape, header: bool, p: Parts, buf: nat) {
    && (header ==> Aligned(s.kH, buf + p.indexHeader)) && Aligned(s.kB, buf + p.blockHeader)
    && Aligned(s.kT, buf + p.values) && Aligned(NAME_LEN_ALIGN, buf + p.nameLength) && Aligned(s.kC, buf + p.name)
  }

  /** The layout of a named block: its parts, the name of `namelen` characters with its terminator among them,
      are disjoint and inside the buffer exactly when the size of the values is below 2^(w-2), and they are
      always aligned. */
  lemma NamedLayout(s: Shape, header: bool, bytes: nat, namelen: nat, buf: nat)
    requires ValidShape(s) && SmallName(s, NameBytes(s, namelen)) && GoodBuffer(s, header, buf)
    ensures var p := PartsOf(s, header, StoredBytes(s.w, bytes), NameBytes(s, namelen));
            && (Disjoint(s, header, p, bytes, (namelen + 1) * s.sizeC) <==> bytes < Pow2(s.w - 2))
            && AllAligned(s, header, p, buf)
  {
    LayoutWith(s, header, bytes, NameBytes(s, namelen), buf);
  }

  lemma LayoutWith(s: Shape, header: bool, bytes: nat, nameBytes: nat, buf: nat)
    requires ValidShape(s) && SmallName(s, nameBytes) && GoodBuffer(s, header, buf)
    ensures var p := PartsOf(s, header, StoredBytes(s.w, bytes), nameBytes);
            && (Disjoint(s, header, p, bytes, nameBytes) <==> bytes < Pow2(s.w - 2))
            && AllAligned(s, header, p, buf)
  {
    var stored := StoredBytes(s.w, bytes);
    StoredExactly(s.w, bytes);
    TotalWith(s, header, stored, nameBytes);
    PrefixFits(s, header);
    TailOffsets(s, stored);
    PartsAligned(s, header, stored, nameBytes, buf);
    Pow2Monotone(1, s.w - 2);
  }

  lemma PartsAligned(s: Shape, header: bool, stored: nat, nameBytes: nat, buf: nat)
    requires ValidShape(s) && stored < Pow2(s.w - 2) && GoodBuffer(s, header, buf)
    ensures AllAligned(s, header, PartsOf(s, header, stored, nameBytes), buf)
  {
    FrontAligned(s, header, buf);
    TailAligned(s, stored, buf + Prefix(s, header));
  }

  /** The values and the index header of a good buffer. */
  lemma FrontAligned(s: Shape, header: bool, buf: nat)
    requires ValidShape(s) && GoodBuffer(s, header, buf)
    ensures Aligned(s.kT, buf + Prefix(s, header)) && Aligned(s.kB, buf + Prefix(s, header))
    ensures header ==> Aligned(s.kH, buf + FrontWithHeader(s))
  {
    PrefixFits(s, header);
    AlignedSum(s.kT, buf, Prefix(s, header));
    AlignedSum(s.kB, buf, Prefix(s, header));
    if header {
      HeaderPrefix(s);
      AlignedSum(s.kH, buf, FrontWithHeader(s));
    }
  }

  /** The parts around values at an address that suits the block header. */
  lemma TailAligned(s: Shape, stored: nat, values: int)
    requires ValidShape(s) && stored < Pow2(s.w - 2) && Aligned(s.kB, values)
    ensures Aligned(s.kB, values - s.sizeB)
    ensures Aligned(NAME_LEN_ALIGN, values - s.sizeB + NameLengthOffset(s, stored))
    ensures Aligned(s.kC, values - s.sizeB + NameOffset(s, stored))
  {
    var hdr := values - s.sizeB;
    WrapDifference(s.kB, values, s.sizeB);
    TailOffsets(s, stored);
    AlignedLess(NAME_LEN_ALIGN, s.kB, hdr);
    AlignedLess(s.kC, s.kB, hdr);
    AlignedSum(NAME_LEN_ALIGN, hdr, NameLengthOffset(s, stored));
    AlignedSum(s.kC, hdr, NameOffset(s, stored));
  }

  /** An anonymous block holds its values exactly when their size is below 2^(w-2). */
  lemma AnonymousLayout(s: Shape, bytes: nat, buf: nat)
    requires ValidShape(s) && GoodBuffer(s, false, buf)
    ensures Prefix(s, false) + bytes <= TotalAnonymous(s, StoredBytes(s.w, bytes)) <==> bytes < Pow2(s.w - 2)
    ensures 0 <= FrontWithoutHeader(s) && Aligned(s.kB, buf + FrontWithoutHeader(s))
    ensures Aligned(s.kT, buf + Prefix(s, false))
  {
    StoredExactly(s.w, bytes);
    BarePrefix(s);
    AnonymousExact(s, StoredBytes(s.w, bytes));
    AlignedSum(s.kB, buf, FrontWithoutHeader(s));
    AlignedSum(s.kT, buf, Prefix(s, false));
  }

  // ---------- from one part to another

  function FromFirstHeader(s: Shape, first: int): int {
    first + Between(s)
  }

  function ToFirstHeader(s: Shape, hdr: int): int {
    hdr - Between(s)
  }

  function Value(s: Shape, hdr: int): int {
    hdr + s.sizeB
  }

  function HeaderFromValue(s: Shape, value: int): int {
    value - s.sizeB
  }

  /** The block header of a new block, as construct finds it from the buffer. */
  function HeaderInBuffer(s: Shape, header: bool, buf: int): int {
    if header then FromFirstHeader(s, buf + FrontWithHeader(s)) else buf + FrontWithoutHeader(s)
  }

  /** The address that destroy gives to deallocate, found from the block header. */
  function BufferOfHeader(s: Shape, header: bool, hdr: int): int {
    if header then ToFirstHeader(s, hdr) - FrontWithHeader(s) else hdr - FrontWithoutHeader(s)
  }

  /** The conversions undo each other, and the walk that destroy makes from a value back to the buffer is
      the reverse of the one construct made. */
  lemma WalkBack(s: Shape, header: bool, buf: int, first: int, hdr: int)
    ensures ToFirstHeader(s, FromFirstHeader(s, first)) == first && FromFirstHeader(s, ToFirstHeader(s, hdr)) == hdr
    ensures HeaderFromValue(s, Value(s, hdr)) == hdr && Value(s, HeaderFromValue(s, first)) == first
    ensures HeaderInBuffer(s, header, buf) == buf + Prefix(s, header) - s.sizeB
    ensures Value(s, HeaderInBuffer(s, header, buf)) == buf + Prefix(s, header)
    ensures BufferOfHeader(s, header, HeaderFromValue(s, Value(s, HeaderInBuffer(s, header, buf)))) == buf
  {
  }
}
