/** pointer_plus_bits for offset_ptr (offset_ptr.hpp): bits kept inside the offset of a pointer whose target
    is aligned.  The lowest bit stays free because the offset 1 is the null pointer. */
module TaggedPtr {
  import opened Words
  import opened OffsetPtr

  /** The words in use: `w` bits wide, `bits` of them for the tag, addresses being multiples of 2^align. */
  datatype Format = Format(w: nat, align: nat, bits: nat)

  /** max_pointer_plus_bits: one bit less than the alignment offers. */
  predicate ValidFormat(f: Format) {
    f.bits + 1 <= f.align <= f.w
  }

  function Mask(f: Format): nat {
    (Pow2(f.bits) - 1) * 2
  }

  predicate AlignedAddress(f: Format, addr: nat) {
    addr < Pow2(f.w) && Aligned(f.align, addr)
  }

  lemma MaskFits(f: Format)
    requires ValidFormat(f)
    ensures Mask(f) < Pow2(f.w) && Mask(f) == Pow2(f.bits + 1) - 2
  {
    Pow2Monotone(f.bits + 1, f.w);
  }

  // ---------- arithmetic of aligned words

  /** The offset between two aligned addresses is aligned; the address after an aligned one is not. */
  lemma AlignedOffset(f: Format, self: nat, ptr: nat)
    requires ValidFormat(f) && AlignedAddress(f, self) && AlignedAddress(f, ptr)
    ensures Wrap(f.align, Wrap(f.w, ptr - self)) == 0
    ensures ptr != Wrap(f.w, self + 1)
  {
    WrapDifference(f.align, ptr, self);
    WrapWrap(f.align, f.w, ptr - self);
    WrapWrap(f.align, f.w, self + 1);
    WrapAdd(f.align, self, 1);
    assert Pow2(f.align) == 2 * Pow2(f.align - 1);
  }

  // ---------- the tag and the rest of a word

  lemma {:induction false} AndDouble(x: nat, m: nat)
    ensures And(x, 2 * m) == 2 * And(x / 2, m)
  {
  }

  /** An offset without tag: null, or with its low bits zero. */
  predicate Untagged(f: Format, offset: nat) {
    offset < Pow2(f.w) && (offset == 1 || Wrap(f.bits + 1, offset) == 0)
  }

  lemma {:induction false} WrapHalf(n: nat, e: nat, b: nat)
    requires b < Pow2(n) && (e == 1 || Wrap(n + 1, e) == 0)
    ensures Wrap(n, (e + 2 * b) / 2) == b
  {
    WrapDouble(n, e);
    assert (e + 2 * b) / 2 == e / 2 + b;
    WrapAdd(n, e / 2, b);
  }

  /** Room for the tag: adding twice a tag below 2^bits to an untagged offset stays a word. */
  lemma TagFits(f: Format, e: nat, b: nat)
    requires ValidFormat(f) && Untagged(f, e) && b < Pow2(f.bits)
    ensures e + 2 * b < Pow2(f.w)
  {
    if e == 1 {
      Pow2Monotone(f.bits + 1, f.w);
    } else {
      MultipleGap(f.bits + 1, f.w, e);
    }
  }

  /** The mask separates an untagged offset and its tag, and `or` joins them. */
  lemma Separate(f: Format, e: nat, b: nat)
    requires ValidFormat(f) && Untagged(f, e) && b < Pow2(f.bits)
    ensures e + 2 * b < Pow2(f.w) && Mask(f) < Pow2(f.w)
    ensures And(e + 2 * b, Mask(f)) == 2 * b
    ensures And(e + 2 * b, Not(f.w, Mask(f))) == e
    ensures Or(e, 2 * b) == e + 2 * b
  {
    TagFits(f, e, b);
    MaskFits(f);
    TagPart(f, e, b);
    RestPart(f, e, b);
    Joined(f.bits + 1, e, b);
  }

  lemma TagPart(f: Format, e: nat, b: nat)
    requires Untagged(f, e) && b < Pow2(f.bits)
    ensures And(e + 2 * b, Mask(f)) == 2 * b
  {
    WrapHalf(f.bits, e, b);
    TagOf(f.bits, e + 2 * b);
  }

  lemma RestPart(f: Format, e: nat, b: nat)
    requires Untagged(f, e) && b < Pow2(f.bits) && Mask(f) < Pow2(f.w) && e + 2 * b < Pow2(f.w)
    ensures And(e + 2 * b, Not(f.w, Mask(f))) == e
  {
    TagPart(f, e, b);
    AndNot(f.w, e + 2 * b, Mask(f));
  }

  lemma TagOf(n: nat, x: nat)
    ensures And(x, (Pow2(n) - 1) * 2) == 2 * Wrap(n, x / 2)
  {
    AndDouble(x, Pow2(n) - 1);
    AndOnes(x / 2, n);
  }

  lemma Joined(n: nat, e: nat, b: nat)
    requires (e == 1 || Wrap(n, e) == 0) && 2 * b < Pow2(n)
    ensures Or(e, 2 * b) == e + 2 * b
  {
    OrPlusAnd(e, 2 * b);
    if e == 1 {
      assert And(0, b) == 0;
    } else {
      AndDisjoint(e, 2 * b, n);
    }
  }

  // ---------- the operations on offset words

  function GetBits(f: Format, offset: nat): nat {
    And(offset, Mask(f)) / 2
  }

  function WithoutBits(f: Format, offset: nat): nat
    requires Mask(f) < Pow2(f.w)
  {
    And(offset, Not(f.w, Mask(f)))
  }

  function SetBits(f: Format, offset: nat, b: nat): nat
    requires Mask(f) < Pow2(f.w)
  {
    Or(WithoutBits(f, offset), 2 * b)
  }

  /** The word at `self` after assigning it the pointer at `other` and putting its own bits back. */
  function SetPointer(f: Format, self: nat, offset: nat, other: nat, otherOffset: nat): nat {
    Or(FromOther(f.w, self, other, otherOffset), And(offset, Mask(f)))
  }

  /** The word at address `self` stands for the pointer `ptr` and the tag `b`. */
  predicate Holds(f: Format, self: nat, offset: nat, ptr: nat, b: nat) {
    && AlignedAddress(f, self) && AlignedAddress(f, ptr) && b < Pow2(f.bits)
    && offset == ToOffset(f.w, ptr, self) + 2 * b
  }

  lemma StoredUntagged(f: Format, self: nat, ptr: nat)
    requires ValidFormat(f) && AlignedAddress(f, self) && AlignedAddress(f, ptr)
    ensures Untagged(f, ToOffset(f.w, ptr, self))
    ensures ToOffset(f.w, ptr, self) == 1 <==> ptr == 0
    ensures ToRaw(f.w, self, ToOffset(f.w, ptr, self)) == ptr
  {
    Pow2Monotone(1, f.w);
    OffsetBranchless(f.w, ptr, self);
    StoredPointer(f.w, self, ptr);
    AlignedOffset(f, self, ptr);
    LowerBits(f, Wrap(f.w, ptr - self));
  }

  lemma TagSplits(f: Format, self: nat, ptr: nat, b: nat)
    requires ValidFormat(f) && AlignedAddress(f, self) && AlignedAddress(f, ptr) && b < Pow2(f.bits)
    ensures var e := ToOffset(f.w, ptr, self);
            And(e + 2 * b, Mask(f)) == 2 * b && Or(e, 2 * b) == e + 2 * b
  {
    StoredUntagged(f, self, ptr);
    Separate(f, ToOffset(f.w, ptr, self), b);
  }

  lemma LowerBits(f: Format, x: nat)
    requires ValidFormat(f) && Wrap(f.align, x) == 0
    ensures Wrap(f.bits + 1, x) == 0
  {
    WrapWrap(f.bits + 1, f.align, x);
  }

  /** What is read from a word is what it stands for. */
  lemma ReadBack(f: Format, self: nat, offset: nat, ptr: nat, b: nat)
    requires ValidFormat(f) && Holds(f, self, offset, ptr, b)
    ensures offset < Pow2(f.w) && Mask(f) < Pow2(f.w)
    ensures GetBits(f, offset) == b
    ensures WithoutBits(f, offset) == ToOffset(f.w, ptr, self)
    ensures ToRaw(f.w, self, WithoutBits(f, offset)) == ptr
    ensures WithoutBits(f, offset) == 1 <==> ptr == 0
  {
    StoredUntagged(f, self, ptr);
    Separate(f, ToOffset(f.w, ptr, self), b);
  }

  lemma BitsSet(f: Format, self: nat, offset: nat, ptr: nat, b: nat, b': nat)
    requires ValidFormat(f) && Holds(f, self, offset, ptr, b) && b' < Pow2(f.bits)
    ensures Mask(f) < Pow2(f.w) && Holds(f, self, SetBits(f, offset, b'), ptr, b')
  {
    ReadBack(f, self, offset, ptr, b);
    StoredUntagged(f, self, ptr);
    Separate(f, ToOffset(f.w, ptr, self), b');
  }

  /** Copying a pointer to an address that can hold its target stores that target. */
  lemma CopyStores(w: nat, self: nat, other: nat, ptr: nat)
    requires w > 0 && self < Pow2(w) && other < Pow2(w) && ptr < Pow2(w)
    requires ptr == 0 || ptr != Wrap(w, other + 1)
    ensures FromOther(w, self, other, ToOffset(w, ptr, other)) == ToOffset(w, ptr, self)
  {
    OtherBranchless(w, self, other, ToOffset(w, ptr, other));
    OffsetBranchless(w, ptr, self);
    OffsetBranchless(w, ptr, other);
    OffsetOf(w, other, ptr);
    WrapAdd(w, ptr - other, other - self);
  }

  lemma PointerSet(f: Format, self: nat, offset: nat, ptr: nat, b: nat, other: nat, ptr': nat)
    requires ValidFormat(f) && Holds(f, self, offset, ptr, b) && AlignedAddress(f, ptr')
    requires other < Pow2(f.w) && (ptr' == 0 || ptr' != Wrap(f.w, other + 1))
    ensures Holds(f, self, SetPointer(f, self, offset, other, ToOffset(f.w, ptr', other)), ptr', b)
  {
    CopyStores(f.w, self, other, ptr');
    TagSplits(f, self, ptr, b);
    TagSplits(f, self, ptr', b);
  }

  // ---------- any sequence of writes

  /** A call of set_pointer with an offset_ptr to `ptr` living at `at`, or a call of set_bits. */
  datatype Write = PutPointer(at: nat, ptr: nat) | PutBits(b: nat)

  predicate ValidWrite(f: Format, x: Write) {
    if x.PutBits? then x.b < Pow2(f.bits)
    else AlignedAddress(f, x.ptr) && x.at < Pow2(f.w) && (x.ptr == 0 || x.ptr != Wrap(f.w, x.at + 1))
  }

  function After(f: Format, self: nat, offset: nat, writes: seq<Write>): nat
    requires Mask(f) < Pow2(f.w)
  {
    if writes == [] then offset
    else
      var before := After(f, self, offset, writes[..|writes| - 1]);
      var x := writes[|writes| - 1];
      if x.PutBits? then SetBits(f, before, x.b)
      else SetPointer(f, self, before, x.at, ToOffset(f.w, x.ptr, x.at))
  }

  /** The pointer and the tag written last, given those at the start. */
  function LastPointer(ptr: nat, writes: seq<Write>): nat {
    if writes == [] then ptr
    else if writes[|writes| - 1].PutPointer? then writes[|writes| - 1].ptr
    else LastPointer(ptr, writes[..|writes| - 1])
  }

  function LastBits(b: nat, writes: seq<Write>): nat {
    if writes == [] then b
    else if writes[|writes| - 1].PutBits? then writes[|writes| - 1].b
    else LastBits(b, writes[..|writes| - 1])
  }

  lemma {:induction false} AfterHolds(f: Format, self: nat, offset: nat, ptr: nat, b: nat, writes: seq<Write>)
    requires ValidFormat(f) && Holds(f, self, offset, ptr, b) && forall x | x in writes :: ValidWrite(f, x)
    ensures Mask(f) < Pow2(f.w)
    ensures Holds(f, self, After(f, self, offset, writes), LastPointer(ptr, writes), LastBits(b, writes))
  {
    MaskFits(f);
    if writes != [] {
      var front, x := writes[..|writes| - 1], writes[|writes| - 1];
      AfterHolds(f, self, offset, ptr, b, front);
      var before, p, t := After(f, self, offset, front), LastPointer(ptr, front), LastBits(b, front);
      assert x in writes;
      if x.PutBits? {
        BitsSet(f, self, before, p, t, x.b);
      } else {
        PointerSet(f, self, before, p, t, x.at, x.ptr);
      }
    }
  }

  /** Over any sequence of writes, get_pointer gives the last pointer written, null included, and get_bits
      the last tag. */
  lemma LastWriteWins(f: Format, self: nat, offset: nat, ptr: nat, b: nat, writes: seq<Write>)
    requires ValidFormat(f) && Holds(f, self, offset, ptr, b) && forall x | x in writes :: ValidWrite(f, x)
    ensures Mask(f) < Pow2(f.w)
    ensures var after := After(f, self, offset, writes);
            && GetBits(f, after) == LastBits(b, writes)
            && ToRaw(f.w, self, WithoutBits(f, after)) == LastPointer(ptr, writes)
            && (WithoutBits(f, after) == 1 <==> LastPointer(ptr, writes) == 0)
  {
    AfterHolds(f, self, offset, ptr, b, writes);
    ReadBack(f, self, After(f, self, offset, writes), LastPointer(ptr, writes), LastBits(b, writes));
  }

  /** A plain copy, to a different aligned address, of a null carrying a tag: it reads as null exactly when
      the tag is zero, and otherwise as the address right after the original. */
  lemma PlainCopyOfNull(f: Format, self: nat, other: nat, offset: nat, b: nat)
    requires ValidFormat(f) && Holds(f, other, offset, 0, b) && AlignedAddress(f, self) && self != other
    ensures Mask(f) < Pow2(f.w)
    ensures var read := WithoutBits(f, FromOther(f.w, self, other, offset));
            && (read == 1 <==> b == 0)
            && (b != 0 ==> ToRaw(f.w, self, read) == other + 1)
  {
    ReadBack(f, other, offset, 0, b);
    StoredUntagged(f, other, 0);
    if b == 0 {
      PlainNull(f, self, other);
    } else {
      TaggedNull(f, self, other, b);
    }
  }

  /** A null without tag is copied as null. */
  lemma PlainNull(f: Format, self: nat, other: nat)
    requires ValidFormat(f) && Mask(f) < Pow2(f.w)
    ensures WithoutBits(f, FromOther(f.w, self, other, 1)) == 1
  {
    Pow2Monotone(1, f.w);
    OtherBranchless(f.w, self, other, 1);
    RestPart(f, 1, 0);
  }

  /** A null with a tag is copied as the distance between the addresses, plus one and the tag. */
  lemma TaggedNull(f: Format, self: nat, other: nat, b: nat)
    requires ValidFormat(f) && AlignedAddress(f, self) && AlignedAddress(f, other) && self != other
    requires 0 < b < Pow2(f.bits) && Mask(f) < Pow2(f.w)
    ensures var read := WithoutBits(f, FromOther(f.w, self, other, 1 + 2 * b));
            read != 1 && ToRaw(f.w, self, read) == other + 1
  {
    var e := Wrap(f.w, other - self);
    WrapBack(f.w, other, self);
    OddFits(f, self, other, b);
    CopyOfNull(f, self, other, b);
    OddSeparate(f, e, b);
    OddTarget(f, self, other);
  }

  /** Beside an aligned offset there is room for the null bit and the tag. */
  lemma OddFits(f: Format, self: nat, other: nat, b: nat)
    requires ValidFormat(f) && AlignedAddress(f, self) && AlignedAddress(f, other) && b < Pow2(f.bits)
    ensures var e := Wrap(f.w, other - self);
            Wrap(f.bits + 1, e) == 0 && e + 1 + 2 * b < Pow2(f.w)
  {
    var e := Wrap(f.w, other - self);
    AlignedOffset(f, self, other);
    LowerBits(f, e);
    MultipleGap(f.bits + 1, f.w, e);
  }

  lemma CopyOfNull(f: Format, self: nat, other: nat, b: nat)
    requires f.w > 0 && b > 0 && Wrap(f.w, other - self) + 1 + 2 * b < Pow2(f.w)
    ensures FromOther(f.w, self, other, 1 + 2 * b) == Wrap(f.w, other - self) + 1 + 2 * b
  {
    OtherBranchless(f.w, self, other, 1 + 2 * b);
    WrapPlus(f.w, other - self, 1 + 2 * b);
  }

  /** With the null bit set too, the mask still removes exactly the tag. */
  lemma OddSeparate(f: Format, e: nat, b: nat)
    requires Wrap(f.bits + 1, e) == 0 && b < Pow2(f.bits) && e + 1 + 2 * b < Pow2(f.w) && Mask(f) < Pow2(f.w)
    ensures WithoutBits(f, e + 1 + 2 * b) == e + 1
  {
    OddTag(f.bits, e, b);
    AndNot(f.w, e + 1 + 2 * b, Mask(f));
  }

  lemma OddTag(n: nat, e: nat, b: nat)
    requires Wrap(n + 1, e) == 0 && b < Pow2(n)
    ensures And(e + 1 + 2 * b, (Pow2(n) - 1) * 2) == 2 * b
  {
    WrapHalf(n, e, b);
    WrapDouble(n, e);
    assert (e + 1 + 2 * b) / 2 == (e + 2 * b) / 2;
    TagOf(n, e + 1 + 2 * b);
  }

  lemma OddTarget(f: Format, self: nat, other: nat)
    requires ValidFormat(f) && AlignedAddress(f, self) && AlignedAddress(f, other) && self != other
    requires Wrap(f.w, other - self) + 1 < Pow2(f.w)
    ensures ToRaw(f.w, self, Wrap(f.w, other - self) + 1) == other + 1
  {
    WrapBack(f.w, other, self);
    RawBranchless(f.w, self, Wrap(f.w, other - self) + 1);
    WrapAdd(f.w, other - self, self + 1);
    AfterAligned(f, other);
    WrapSmall(f.w, other + 1);
  }

  /** The address after an aligned one is an address. */
  lemma AfterAligned(f: Format, addr: nat)
    requires ValidFormat(f) && AlignedAddress(f, addr)
    ensures addr + 1 < Pow2(f.w)
  {
    MultipleGap(f.align, f.w, addr);
    Pow2Monotone(1, f.align);
  }

  // ---------- the operations on objects

  ghost predicate Tagged(f: Format, n: Pointer, ptr: nat, b: nat)
    reads n
  {
    n.w == f.w && Holds(f, n.self, n.offset, ptr, b)
  }

  /** get_pointer: `at` is the address of the returned pointer. */
  method ReadPointer(f: Format, n: Pointer, at: nat, ghost ptr: nat, ghost b: nat) returns (p: Pointer)
    requires ValidFormat(f) && Tagged(f, n, ptr, b) && at < Pow2(f.w)
    ensures fresh(p) && p.Valid() && p.self == at && p.w == f.w
    ensures p.Get() == ptr <==> p.CanHold(ptr)
    ensures ptr == 0 ==> p.offset == 1
  {
    ReadBack(f, n.self, n.offset, ptr, b);
    var off := WithoutBits(f, n.offset);
    Pow2Monotone(1, f.w);
    p := new Pointer.Null(f.w, at);
    p.offset := FromOther(f.w, at, n.self, off);
    StoredUntagged(f, n.self, ptr);
    CopiedPointer(f.w, at, n.self, off);
    OtherBranchless(f.w, at, n.self, off);
  }

  /** set_pointer; the source asserts that the given pointer carries no bits. */
  method WritePointer(f: Format, n: Pointer, p: Pointer, ghost ptr: nat, ghost b: nat, ghost ptr': nat)
    requires ValidFormat(f) && Tagged(f, n, ptr, b) && AlignedAddress(f, ptr')
    requires p.Valid() && p.w == f.w && p.offset == ToOffset(f.w, ptr', p.self) && p.CanHold(ptr')
    requires GetBits(f, p.offset) == 0
    modifies n
    ensures Tagged(f, n, ptr', b)
  {
    PointerSet(f, n.self, n.offset, ptr, b, p.self, ptr');
    Pow2Monotone(1, f.w);
    TaggedIsValid(f, n, ptr, b);
    var storedBits := And(n.offset, Mask(f));
    n.Assign(p);
    n.offset := Or(n.offset, storedBits);
  }

  lemma TaggedIsValid(f: Format, n: Pointer, ptr: nat, b: nat)
    requires ValidFormat(f) && Tagged(f, n, ptr, b)
    ensures n.Valid()
  {
    ReadBack(f, n.self, n.offset, ptr, b);
  }

  /** set_bits; the source asserts that the bits fit. */
  method WriteBits(f: Format, n: Pointer, b': nat, ghost ptr: nat, ghost b: nat)
    requires ValidFormat(f) && Tagged(f, n, ptr, b) && b' < Pow2(f.bits)
    modifies n
    ensures Tagged(f, n, ptr, b')
  {
    BitsSet(f, n.self, n.offset, ptr, b, b');
    var tmp := n.offset;
    tmp := And(tmp, Not(f.w, Mask(f)));
    tmp := Or(tmp, 2 * b');
    n.offset := tmp;
  }
}
