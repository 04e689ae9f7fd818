/** offset_ptr (offset_ptr.hpp): a pointer stored as the distance from its own address, null being the
    distance 1.  Addresses and offsets are words of `w` bits. */
module OffsetPtr {
  import opened Words

  // ---------- the branchless conversions

  function ToRaw(w: nat, self: nat, offset: nat): nat {
    var mask := Wrap(w, (if offset == 1 then 1 else 0) - 1);
    And(Wrap(w, self + offset), mask)
  }

  function ToOffset(w: nat, ptr: nat, self: nat): nat {
    var offset := Wrap(w, Wrap(w, ptr - self) - 1);
    var mask := Wrap(w, (if ptr == 0 then 1 else 0) - 1);
    Wrap(w, And(offset, mask) + 1)
  }

  function FromOther(w: nat, self: nat, other: nat, otherOffset: nat): nat {
    var mask := Wrap(w, (if otherOffset == 1 then 1 else 0) - 1);
    Wrap(w, And(Wrap(w, other - self), mask) + otherOffset)
  }

  // ---------- the branching forms they replace

  function ToRawBranching(w: nat, self: nat, offset: nat): nat {
    if offset == 1 then 0 else Wrap(w, self + offset)
  }

  function ToOffsetBranching(w: nat, ptr: nat, self: nat): nat {
    if ptr == 0 then 1 else Wrap(w, ptr - self)
  }

  function FromOtherBranching(w: nat, self: nat, other: nat, otherOffset: nat): nat {
    if otherOffset == 1 then 1 else Wrap(w, other - self + otherOffset)
  }

  lemma MaskKeeps(w: nat, x: nat)
    requires x < Pow2(w)
    ensures Wrap(w, 0 - 1) == Pow2(w) - 1 && And(x, Pow2(w) - 1) == x && And(x, 0) == 0
  {
    AndOnes(x, w);
  }

  /** For every width each branchless conversion computes its branching form. */
  lemma Branchless(w: nat, self: nat, other: nat, ptr: nat, offset: nat)
    requires w > 0 && self < Pow2(w) && other < Pow2(w) && ptr < Pow2(w) && offset < Pow2(w)
    ensures ToRaw(w, self, offset) == ToRawBranching(w, self, offset)
    ensures ToOffset(w, ptr, self) == ToOffsetBranching(w, ptr, self)
    ensures FromOther(w, self, other, offset) == FromOtherBranching(w, self, other, offset)
  {
    RawBranchless(w, self, offset);
    OffsetBranchless(w, ptr, self);
    OtherBranchless(w, self, other, offset);
  }

  lemma RawBranchless(w: nat, self: nat, offset: nat)
    requires w > 0
    ensures ToRaw(w, self, offset) == ToRawBranching(w, self, offset)
  {
    MaskKeeps(w, Wrap(w, self + offset));
  }

  lemma OffsetBranchless(w: nat, ptr: nat, self: nat)
    requires w > 0
    ensures ToOffset(w, ptr, self) == ToOffsetBranching(w, ptr, self)
  {
    MaskKeeps(w, Wrap(w, Wrap(w, ptr - self) - 1));
    WrapAdd(w, Wrap(w, ptr - self) - 1, 1);
    WrapTwice(w, ptr - self);
    Pow2Monotone(1, w);
    WrapSmall(w, 1);
  }

  lemma OtherBranchless(w: nat, self: nat, other: nat, offset: nat)
    requires w > 0 && offset < Pow2(w)
    ensures FromOther(w, self, other, offset) == FromOtherBranching(w, self, other, offset)
  {
    MaskKeeps(w, Wrap(w, other - self));
    WrapAdd(w, other - self, offset);
  }

  /** A raw pointer stored at `self` reads back as itself exactly when it is null or is not the address
      right after `self`, whose offset stands for null. */
  lemma StoredPointer(w: nat, self: nat, ptr: nat)
    requires w > 0 && self < Pow2(w) && ptr < Pow2(w)
    ensures ToRaw(w, self, ToOffset(w, ptr, self)) == ptr <==> ptr == 0 || ptr != Wrap(w, self + 1)
    ensures ToOffset(w, ptr, self) == 1 <==> ptr == 0 || ptr == Wrap(w, self + 1)
  {
    OffsetBranchless(w, ptr, self);
    RawBranchless(w, self, ToOffset(w, ptr, self));
    OffsetOf(w, self, ptr);
  }

  /** The offset of a target determines it, and is 1 exactly for the address after `self`. */
  lemma OffsetOf(w: nat, self: nat, target: nat)
    requires w > 0 && self < Pow2(w) && target < Pow2(w)
    ensures Wrap(w, self + Wrap(w, target - self)) == target
    ensures Wrap(w, target - self) == 1 <==> target == Wrap(w, self + 1)
  {
    WrapAdd(w, target - self, self);
    WrapAdd(w, self + 1, 0 - self);
  }

  /** A copy to address `self` of the pointer at `other` has the same target exactly when that target is
      null or is not the address right after `self`. */
  lemma CopiedPointer(w: nat, self: nat, other: nat, offset: nat)
    requires w > 0 && self < Pow2(w) && other < Pow2(w) && offset < Pow2(w)
    ensures ToRaw(w, self, FromOther(w, self, other, offset)) == ToRaw(w, other, offset)
            <==> ToRaw(w, other, offset) == 0 || ToRaw(w, other, offset) != Wrap(w, self + 1)
    ensures self == other ==> FromOther(w, self, other, offset) == offset
  {
    OtherBranchless(w, self, other, offset);
    RawBranchless(w, other, offset);
    var copied := FromOther(w, self, other, offset);
    RawBranchless(w, self, copied);
    CopiedBranching(w, self, other, offset);
  }

  lemma CopiedBranching(w: nat, self: nat, other: nat, offset: nat)
    requires w > 0 && self < Pow2(w) && other < Pow2(w) && offset < Pow2(w)
    ensures var target := ToRawBranching(w, other, offset);
            ToRawBranching(w, self, FromOtherBranching(w, self, other, offset)) == target
            <==> target == 0 || target != Wrap(w, self + 1)
    ensures self == other ==> FromOtherBranching(w, self, other, offset) == offset
  {
    if offset != 1 {
      var target := Wrap(w, other + offset);
      WrapAdd(w, other + offset, 0 - self);
      OffsetOf(w, self, target);
    }
  }

  /** Adding `bytes` to a pointer that is not null moves its target by `bytes`, exactly when the new target
      is null or is not the address right after the pointer itself. */
  lemma MovedPointer(w: nat, self: nat, offset: nat, bytes: int)
    requires w > 0 && self < Pow2(w) && offset < Pow2(w) && offset != 1
    ensures var target := Wrap(w, ToRaw(w, self, offset) + bytes);
            ToRaw(w, self, Wrap(w, offset + bytes)) == target <==> target == 0 || target != Wrap(w, self + 1)
  {
    RawBranchless(w, self, offset);
    RawBranchless(w, self, Wrap(w, offset + bytes));
    MovedTarget(w, self, offset, bytes);
  }

  lemma MovedTarget(w: nat, self: nat, offset: nat, bytes: int)
    requires w > 0 && self < Pow2(w) && offset != 1
    ensures var target := Wrap(w, ToRawBranching(w, self, offset) + bytes);
            ToRawBranching(w, self, Wrap(w, offset + bytes)) == target
            <==> target == 0 || target != Wrap(w, self + 1)
  {
    WrapAdd(w, self + offset, bytes);
    MovedBranching(w, self, offset + bytes);
  }

  /** Reading an offset `x` reduced to a word gives the address `x` bytes away, unless the word is 1. */
  lemma MovedBranching(w: nat, self: nat, x: int)
    requires w > 0 && self < Pow2(w)
    ensures var target := Wrap(w, self + x);
            ToRawBranching(w, self, Wrap(w, x)) == target <==> target == 0 || target != Wrap(w, self + 1)
  {
    WrapAdd(w, x, self);
    WrapAdd(w, self + x, 0 - self);
    OffsetOf(w, self, Wrap(w, self + x));
  }

  /** An offset_ptr object: `self` is its own address, `offset` its only field. */
  class Pointer {
    const w: nat
    const self: nat
    var offset: nat

    ghost predicate Valid()
      reads this
    {
      w > 0 && self < Pow2(w) && offset < Pow2(w)
    }

    function Get(): nat
      reads this
    {
      ToRaw(w, self, offset)
    }

    /** `target` can be told from null at this pointer's address. */
    predicate CanHold(target: nat) {
      target == 0 || target != Wrap(w, self + 1)
    }

    constructor Null(w: nat, self: nat)
      requires w > 0 && self < Pow2(w)
      ensures Valid() && this.w == w && this.self == self && offset == 1 && Get() == 0
    {
      this.w, this.self, offset := w, self, 1;
      RawBranchless(w, self, 1);
    }

    constructor FromRaw(w: nat, self: nat, ptr: nat)
      requires w > 0 && self < Pow2(w) && ptr < Pow2(w)
      ensures Valid() && this.w == w && this.self == self
      ensures Get() == ptr <==> CanHold(ptr)
      ensures offset == 1 <==> ptr == 0 || !CanHold(ptr)
    {
      this.w, this.self, offset := w, self, ToOffset(w, ptr, self);
      StoredPointer(w, self, ptr);
    }

    constructor Copy(self: nat, other: Pointer)
      requires other.Valid() && self < Pow2(other.w)
      ensures Valid() && this.w == other.w && this.self == self
      ensures Get() == other.Get() <==> CanHold(other.Get())
    {
      this.w, this.self, offset := other.w, self, FromOther(other.w, self, other.self, other.offset);
      CopiedPointer(other.w, self, other.self, other.offset);
    }

    method AssignRaw(ptr: nat)
      requires Valid() && ptr < Pow2(w)
      modifies this
      ensures Valid() && (Get() == ptr <==> CanHold(ptr))
      ensures offset == ToOffset(w, ptr, self)
    {
      offset := ToOffset(w, ptr, self);
      StoredPointer(w, self, ptr);
    }

    method Assign(other: Pointer)
      requires Valid() && other.Valid() && other.w == w
      modifies this
      ensures Valid() && (Get() == old(other.Get()) <==> CanHold(old(other.Get())))
      ensures offset == FromOther(w, self, other.self, old(other.offset))
      ensures other.self == self ==> offset == old(other.offset)
    {
      offset := FromOther(w, self, other.self, other.offset);
      CopiedPointer(w, self, other.self, old(other.offset));
    }

    /** inc_offset; dec_offset is the same with `-bytes`. */
    method IncOffset(bytes: int)
      requires Valid()
      modifies this
      ensures Valid() && offset == Wrap(w, old(offset) + bytes)
      ensures old(offset) != 1 ==>
                (Get() == Wrap(w, old(Get()) + bytes) <==> CanHold(Wrap(w, old(Get()) + bytes)))
    {
      if offset != 1 {
        MovedPointer(w, self, offset, bytes);
      }
      offset := Wrap(w, offset + bytes);
    }
  }

  /** swap, also of a pointer with itself: each ends with the other's target exactly when it can hold it. */
  method Swap(left: Pointer, right: Pointer)
    requires left.Valid() && right.Valid() && left.w == right.w
    modifies left, right
    ensures left.Valid() && right.Valid()
    ensures left.Get() == old(right.Get()) <==> left.CanHold(old(right.Get()))
    ensures right.Get() == old(left.Get()) <==> right.CanHold(old(left.Get()))
    ensures left == right ==> left.Get() == old(left.Get())
  {
    var ptr := right.Get();
    OwnTarget(right.w, right.self, right.offset);
    right.Assign(left);
    left.AssignRaw(ptr);
  }

  /** A pointer can hold the target it has. */
  lemma OwnTarget(w: nat, self: nat, offset: nat)
    requires w > 0 && self < Pow2(w) && offset < Pow2(w)
    ensures ToRaw(w, self, offset) < Pow2(w)
    ensures ToRaw(w, self, offset) == 0 || ToRaw(w, self, offset) != Wrap(w, self + 1)
  {
    CopiedPointer(w, self, self, offset);
    RawBranchless(w, self, offset);
  }
}
