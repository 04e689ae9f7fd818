/** Moving a segment of offset_ptrs to another base: what makes managed segments usable at different
    addresses, and managed_heap_memory able to grow by copying itself (managed_heap_memory.hpp,
    detail/managed_memory_impl.hpp). */
module Relocation {
  import opened Words
  import opened OffsetPtr

  /** A segment of `size` bytes mapped at `base`; `ptrs` gives the offset word of each offset_ptr stored
      in it, keyed by its distance from the base. */
  datatype Segment = Segment(base: nat, size: nat, ptrs: map<nat, nat>)

  predicate ValidSegment(w: nat, seg: Segment) {
    && w > 0 && seg.base + seg.size <= Pow2(w)
    && forall o | o in seg.ptrs :: o < seg.size && seg.ptrs[o] < Pow2(w)
  }

  /** Where a dereference leads: null, an address of the segment, an address outside it, or nowhere
      because no offset_ptr is stored at the place. */
  datatype Place = Null | At(addr: int) | Outside(addr: int) | NoPointer

  predicate Contains(seg: Segment, addr: int) {
    seg.base <= addr < seg.base + seg.size
  }

  /** Where the offset_ptr stored `o` bytes into the segment leads, in the process that maps it at its base. */
  function Target(w: nat, seg: Segment, o: nat): Place
    requires o in seg.ptrs
  {
    var target := ToRaw(w, seg.base + o, seg.ptrs[o]);
    if seg.ptrs[o] == 1 then Null else if Contains(seg, target) then At(target) else Outside(target)
  }

  /** The pointer graph of a segment: for each offset_ptr in it, where it leads. */
  function Graph(w: nat, seg: Segment): map<int, Place> {
    map o | o in seg.ptrs :: Target(w, seg, o)
  }

  function Lookup(g: map<int, Place>, o: int): Place {
    if o in g then g[o] else NoPointer
  }

  /** Follows a chain in the graph `g` of a segment at `base`: from the object at `addr`, the pointer
      `path[0]` bytes into it, and so on. */
  function Chase(base: nat, g: map<int, Place>, addr: int, path: seq<int>): Place
    decreases |path|
  {
    if path == [] then At(addr)
    else
      var next := Lookup(g, addr + path[0] - base);
      if |path| == 1 || !next.At? then next else Chase(base, g, next.addr, path[1..])
  }

  /** The same bytes at another base. */
  function CopyTo(seg: Segment, base: nat): Segment {
    seg.(base := base)
  }

  function Moved(w: nat, place: Place, delta: int): Place {
    if place.At? then At(place.addr + delta)
    else if place.Outside? then Outside(Wrap(w, place.addr + delta))
    else place
  }

  /** What a chain reads: the offset_ptr stored for `target` leads to it, and null to null. */
  lemma ChaseReadsStored(w: nat, seg: Segment, o: nat, target: nat)
    requires ValidSegment(w, seg) && o in seg.ptrs && target < Pow2(w)
    requires target == 0 || target != Wrap(w, seg.base + o + 1)
    requires seg.ptrs[o] == ToOffset(w, target, seg.base + o)
    ensures Chase(seg.base, Graph(w, seg), seg.base + o, [0])
            == if target == 0 then Null
               else if seg.base <= target < seg.base + seg.size then At(target) else Outside(target)
  {
    TargetStored(w, seg, o, target);
    var g := Graph(w, seg);
    assert Lookup(g, o) == Target(w, seg, o);
    assert seg.base + o + 0 - seg.base == o;
  }

  lemma TargetStored(w: nat, seg: Segment, o: nat, target: nat)
    requires ValidSegment(w, seg) && o in seg.ptrs && target < Pow2(w)
    requires target == 0 || target != Wrap(w, seg.base + o + 1)
    requires seg.ptrs[o] == ToOffset(w, target, seg.base + o)
    ensures Target(w, seg, o)
            == if target == 0 then Null else if Contains(seg, target) then At(target) else Outside(target)
  {
    StoredPointer(w, seg.base + o, target);
  }

  /** A chain goes on from where its first part leads. */
  lemma {:induction false} ChaseAppend(base: nat, g: map<int, Place>, addr: int, path: seq<int>, more: seq<int>)
    ensures var mid := Chase(base, g, addr, path);
            Chase(base, g, addr, path + more) == if more == [] || !mid.At? then mid else Chase(base, g, mid.addr, more)
    decreases |path|
  {
    if more == [] {
      assert path + more == path;
    } else if path == [] {
      assert path + more == more;
    } else {
      assert (path + more)[1..] == path[1..] + more;
      var next := Lookup(g, addr + path[0] - base);
      if next.At? && |path| > 1 {
        ChaseAppend(base, g, next.addr, path[1..], more);
      } else if |path| == 1 {
        assert path[1..] + more == more;
      }
    }
  }

  lemma ShiftedTarget(w: nat, self: nat, offset: nat, delta: int)
    requires w > 0 && self < Pow2(w) && offset < Pow2(w) && 0 <= self + delta < Pow2(w) && offset != 1
    ensures ToRaw(w, self, offset) < Pow2(w)
    ensures ToRaw(w, self + delta, offset) == Wrap(w, ToRaw(w, self, offset) + delta)
  {
    RawBranchless(w, self, offset);
    RawBranchless(w, self + delta, offset);
    WrapAdd(w, self + offset, delta);
  }

  /** An address is inside a segment exactly when the shifted address is inside the copy. */
  lemma ShiftedInside(w: nat, seg: Segment, base: nat, addr: nat)
    requires ValidSegment(w, seg) && base + seg.size <= Pow2(w) && addr < Pow2(w)
    ensures Contains(seg, addr) <==> Contains(CopyTo(seg, base), Wrap(w, addr + base - seg.base))
    ensures Contains(seg, addr) ==> Wrap(w, addr + base - seg.base) == addr + base - seg.base
  {
    var delta := base - seg.base;
    if !Contains(seg, addr) && seg.size > 0 {
      assert 0 - Pow2(w) < addr + delta < 2 * Pow2(w);
      WrapShift(w, addr + delta);
      WrapShift(w, addr + delta - Pow2(w));
    }
  }

  lemma TargetMoves(w: nat, seg: Segment, base: nat, o: nat)
    requires ValidSegment(w, seg) && base + seg.size <= Pow2(w) && o in seg.ptrs
    ensures Target(w, CopyTo(seg, base), o) == Moved(w, Target(w, seg, o), base - seg.base)
    ensures Target(w, seg, o).At? ==> Contains(seg, Target(w, seg, o).addr)
  {
    var offset := seg.ptrs[o];
    if offset != 1 {
      ShiftedTarget(w, seg.base + o, offset, base - seg.base);
      ShiftedInside(w, seg, base, ToRaw(w, seg.base + o, offset));
    }
  }

  /** The places of `g'` are those of `g`, shifted by `delta`. */
  ghost predicate Shifted(w: nat, g: map<int, Place>, g': map<int, Place>, delta: int) {
    forall o :: Lookup(g', o) == Moved(w, Lookup(g, o), delta)
  }

  ghost predicate Inside(seg: Segment, g: map<int, Place>) {
    forall o :: Lookup(g, o).At? ==> Contains(seg, Lookup(g, o).addr)
  }

  /** The graph of a copy is the graph of the original, shifted. */
  lemma GraphMoves(w: nat, seg: Segment, base: nat)
    requires ValidSegment(w, seg) && base + seg.size <= Pow2(w)
    ensures Shifted(w, Graph(w, seg), Graph(w, CopyTo(seg, base)), base - seg.base) && Inside(seg, Graph(w, seg))
  {
    forall o | o in seg.ptrs
      ensures Target(w, CopyTo(seg, base), o) == Moved(w, Target(w, seg, o), base - seg.base)
      ensures Target(w, seg, o).At? ==> Contains(seg, Target(w, seg, o).addr)
    {
      TargetMoves(w, seg, base, o);
    }
  }

  lemma {:induction false} ChaseMoves(w: nat, base: nat, g: map<int, Place>, base': nat, g': map<int, Place>,
                                      addr: int, path: seq<int>)
    requires Shifted(w, g, g', base' - base)
    ensures Chase(base', g', addr + base' - base, path) == Moved(w, Chase(base, g, addr, path), base' - base)
    decreases |path|
  {
    if path != [] {
      var next := Lookup(g, addr + path[0] - base);
      if |path| > 1 && next.At? {
        ChaseMoves(w, base, g, base', g', next.addr, path[1..]);
      }
    }
  }

  lemma {:induction false} ChaseInside(seg: Segment, g: map<int, Place>, addr: int, path: seq<int>)
    requires Contains(seg, addr) && Inside(seg, g)
    ensures Chase(seg.base, g, addr, path).At? ==> Contains(seg, Chase(seg.base, g, addr, path).addr)
    decreases |path|
  {
    if |path| > 1 && Lookup(g, addr + path[0] - seg.base).At? {
      ChaseInside(seg, g, Lookup(g, addr + path[0] - seg.base).addr, path[1..]);
    }
  }

  /** Copying a whole segment bytewise to another base keeps its pointer graph: every chain of
      dereferences reaches the original address plus the base difference, and null exactly where it did. */
  lemma CopyKeepsGraph(w: nat, seg: Segment, base: nat, addr: int, path: seq<int>)
    requires ValidSegment(w, seg) && base + seg.size <= Pow2(w) && Contains(seg, addr)
    ensures Chase(base, Graph(w, CopyTo(seg, base)), addr + base - seg.base, path)
            == Moved(w, Chase(seg.base, Graph(w, seg), addr, path), base - seg.base)
    ensures var before := Chase(seg.base, Graph(w, seg), addr, path);
            before.At? ==> Contains(seg, before.addr)
  {
    GraphMoves(w, seg, base);
    ChaseCopy(w, seg, Graph(w, seg), base, Graph(w, CopyTo(seg, base)), addr, path);
  }

  lemma ChaseCopy(w: nat, seg: Segment, g: map<int, Place>, base: nat, g': map<int, Place>, addr: int, path: seq<int>)
    requires Shifted(w, g, g', base - seg.base) && Inside(seg, g) && Contains(seg, addr)
    ensures Chase(base, g', addr + base - seg.base, path) == Moved(w, Chase(seg.base, g, addr, path), base - seg.base)
    ensures Chase(seg.base, g, addr, path).At? ==> Contains(seg, Chase(seg.base, g, addr, path).addr)
  {
    ChaseMoves(w, seg.base, g, base, g', addr, path);
    ChaseInside(seg, g, addr, path);
  }

  /** As Shifted, but saying nothing of the pointers that lead outside: room added at the end of a segment
      may bring their targets inside. */
  ghost predicate ShiftedWithin(w: nat, g: map<int, Place>, g': map<int, Place>, delta: int) {
    forall o :: Lookup(g, o).Outside? || Lookup(g', o) == Moved(w, Lookup(g, o), delta)
  }

  lemma {:induction false} ChaseGrown(w: nat, base: nat, g: map<int, Place>, base': nat, g': map<int, Place>,
                                      addr: int, path: seq<int>)
    requires ShiftedWithin(w, g, g', base' - base) && !Chase(base, g, addr, path).Outside?
    ensures Chase(base', g', addr + base' - base, path) == Moved(w, Chase(base, g, addr, path), base' - base)
    decreases |path|
  {
    if path != [] {
      var next := Lookup(g, addr + path[0] - base);
      if |path| > 1 && next.At? {
        ChaseGrown(w, base, g, base', g', next.addr, path[1..]);
      }
    }
  }

  lemma GraphGrows(w: nat, seg: Segment, base: nat, size: nat)
    requires ValidSegment(w, seg) && base + seg.size <= Pow2(w) && seg.size <= size
    ensures ShiftedWithin(w, Graph(w, seg), Graph(w, CopyTo(seg, base).(size := size)), base - seg.base)
  {
    GraphMoves(w, seg, base);
    var g, g', moved := Graph(w, seg), Graph(w, CopyTo(seg, base).(size := size)), Graph(w, CopyTo(seg, base));
    forall o ensures Lookup(g, o).Outside? || Lookup(g', o) == Moved(w, Lookup(g, o), base - seg.base) {
      assert Lookup(moved, o) == Moved(w, Lookup(g, o), base - seg.base);
    }
  }

  // ---------- handles (get_handle_from_address, get_address_from_handle)

  function HandleFromAddress(seg: Segment, addr: int): int {
    addr - seg.base
  }

  function AddressFromHandle(seg: Segment, handle: int): int {
    seg.base + handle
  }

  /** A block of heap memory and the segment manager that lives at its start. */
  datatype Block = Block(bytes: nat, size: nat, ptrs: map<nat, nat>)

  /** Two blocks of the heap do not overlap. */
  predicate Apart(addr: nat, bytes: nat, addr': nat, bytes': nat) {
    addr + bytes <= addr' || addr' + bytes' <= addr
  }

  ghost predicate ValidBlock(w: nat, addr: nat, b: Block) {
    && 0 < addr && b.size <= b.bytes
    && ValidSegment(w, Segment(addr, b.bytes, b.ptrs)) && ValidSegment(w, Segment(addr, b.size, b.ptrs))
  }

  /** A handle is a distance from the base: an address belongs to the segment exactly when its handle is below
      the size, and handles and addresses give each other back. */
  lemma HandlesAreOffsets(seg: Segment, addr: int, handle: int)
    ensures Contains(seg, addr) <==> 0 <= HandleFromAddress(seg, addr) < seg.size
    ensures AddressFromHandle(seg, HandleFromAddress(seg, addr)) == addr
    ensures HandleFromAddress(seg, AddressFromHandle(seg, handle)) == handle
  {
  }

  /** The blocks of a heap are valid and do not overlap. */
  ghost predicate ValidHeap(w: nat, heap: map<nat, Block>) {
    && (forall b | b in heap :: ValidBlock(w, b, heap[b]))
    && forall b, b' | b in heap && b' in heap && b != b' :: Apart(b, heap[b].bytes, b', heap[b'].bytes)
  }

  /** A block is replaced by one that overlaps no block of the heap. */
  lemma ReplaceBlock(w: nat, heap: map<nat, Block>, oldAddr: nat, newAddr: nat, block: Block)
    requires ValidHeap(w, heap) && newAddr !in heap && ValidBlock(w, newAddr, block)
    requires forall b | b in heap :: Apart(newAddr, block.bytes, b, heap[b].bytes)
    ensures ValidHeap(w, heap[newAddr := block] - {oldAddr})
  {
  }

  /** basic_managed_heap_memory over the heap of the process; `header` is 0 when closed, and `overrun` tells
      that memory outside a block was written. */
  class HeapMemory {
    const w: nat
    var heap: map<nat, Block>
    var header: nat
    var overrun: bool

    ghost predicate Valid()
      reads this
    {
      w > 0 && !overrun && (header != 0 ==> header in heap) && ValidHeap(w, heap)
    }

    /** A heap with one block, whose segment is open. */
    constructor Opened(w: nat, addr: nat, block: Block)
      requires w > 0 && ValidBlock(w, addr, block)
      ensures Valid() && this.w == w && header == addr && heap == map[addr := block]
    {
      this.w, heap, header, overrun := w, map[addr := block], addr, false;
    }

    /** The managed segment. */
    function Managed(): Segment
      requires header in heap
      reads this
    {
      Segment(header, heap[header].size, heap[header].ptrs)
    }

    method CloseImpl() returns (ok: bool)
      modifies this`header
      ensures header == 0 && (ok <==> old(header) != 0)
    {
      ok := header != 0;
      header := 0;
    }

    method OpenImpl(addr: nat) returns (ok: bool)
      modifies this`header
      ensures ok <==> old(header) == 0
      ensures header == if ok then addr else old(header)
    {
      if header != 0 {
        return false;
      }
      header := addr;
      return true;
    }

    /** memcpy of the first `n` bytes of one block to another; nothing is said of the other blocks when it
        writes past the end of its target. */
    method Copy(target: nat, source: nat, n: nat)
      requires target in heap && source in heap
      modifies this`heap, this`overrun
      ensures overrun <==> old(overrun) || n > old(heap)[target].bytes
      ensures heap.Keys == old(heap.Keys)
      ensures heap[target] == old(heap)[target].(size := n, ptrs := old(heap)[source].ptrs)
      ensures !overrun ==> heap == old(heap)[target := heap[target]]
    {
      overrun := overrun || n > heap[target].bytes;
      heap := heap[target := heap[target].(size := n, ptrs := heap[source].ptrs)];
    }

    /** grow: `newAddr` is the address the heap gives, 0 when the allocation throws.  The sum of the sizes is
        computed in a word: the grown segment is the old one, moved and with room at its end, exactly when the
        sum does not wrap, and otherwise the copy overruns the new block. */
    method Grow(extra: nat, newAddr: nat) returns (ok: bool)
      requires Valid() && header != 0 && extra < Pow2(w) && newAddr !in heap
      requires newAddr != 0 ==>
                 && newAddr + Wrap(w, heap[header].size + extra) <= Pow2(w)
                 && forall b | b in heap :: Apart(newAddr, Wrap(w, heap[header].size + extra), b, heap[b].bytes)
      modifies this
      ensures ok <==> newAddr != 0
      ensures !ok ==> Valid() && header == old(header) && heap == old(heap)
      ensures ok ==> header == newAddr && heap.Keys == old(heap.Keys) - {old(header)} + {newAddr}
      ensures ok && Valid() ==> forall b | b in heap && b != newAddr :: heap[b] == old(heap)[b]
      ensures ok ==> (Valid() <==> old(Managed()).size + extra < Pow2(w)) && (overrun <==> !Valid())
      ensures ok ==> (Managed() == CopyTo(old(Managed()), newAddr).(size := old(Managed()).size + extra) <==> Valid())
    {
      var oldSize, oldAddr := heap[header].size, header;
      assert ValidBlock(w, oldAddr, heap[oldAddr]);
      var newSize := Wrap(w, oldSize + extra);
      SumWraps(w, oldSize, extra);
      if newAddr == 0 {
        return false;
      }
      heap := heap[newAddr := Block(newSize, 0, map[])];
      Copy(newAddr, oldAddr, oldSize);
      var closed := CloseImpl();
      var reopened := OpenImpl(newAddr);
      heap := heap[header := heap[header].(size := Wrap(w, heap[header].size + extra))];
      heap := heap - {oldAddr};
      if oldSize + extra < Pow2(w) {
        ReplaceBlock(w, old(heap), oldAddr, newAddr, heap[newAddr]);
        assert heap == old(heap)[newAddr := heap[newAddr]] - {oldAddr};
      }
      return true;
    }
  }

  lemma WrappingSizes()
    ensures Pow2(16) == 0x10000 && Wrap(16, 0x200 + 0xFF00) == 0x100
  {
    Pow2Add(8, 8);
    WrapShift(16, 0x100);
  }

  /** Where the code falls short: with 16-bit sizes, a segment of 0x200 bytes grown by 0xFF00 gets a block of
      0x100 bytes, and the copy overruns it although grow reports success. */
  method WrappingGrowHappens() returns (memory: HeapMemory, ok: bool)
    ensures ok && memory.overrun && memory.header == 0x2000
  {
    WrappingSizes();
    memory := new HeapMemory.Opened(16, 0x1000, Block(0x200, 0x200, map[]));
    ok := memory.Grow(0xFF00, 0x2000);
  }

  /** The place in `grown` that has the handle of a place in `seg`. */
  function SameObject(seg: Segment, grown: Segment, place: Place): Place {
    if place.At? then At(AddressFromHandle(grown, HandleFromAddress(seg, place.addr))) else place
  }

  lemma ChaseToObject(w: nat, seg: Segment, g: map<int, Place>, grown: Segment, g': map<int, Place>,
                      addr: int, path: seq<int>)
    requires ShiftedWithin(w, g, g', grown.base - seg.base) && !Chase(seg.base, g, addr, path).Outside?
    ensures Chase(grown.base, g', AddressFromHandle(grown, HandleFromAddress(seg, addr)), path)
            == SameObject(seg, grown, Chase(seg.base, g, addr, path))
  {
    assert AddressFromHandle(grown, HandleFromAddress(seg, addr)) == addr + grown.base - seg.base;
    ChaseGrown(w, seg.base, g, grown.base, g', addr, path);
  }

  /** What the owner of a grown heap sees: every object keeps its handle, and every chain of offset_ptrs
      from it still ends in the same object, or in null, or finds no pointer, where it did. */
  lemma GrowKeepsObjects(w: nat, seg: Segment, grown: Segment, addr: int, path: seq<int>)
    requires ValidSegment(w, seg) && grown.base + seg.size <= Pow2(w) && Contains(seg, addr)
    requires grown == CopyTo(seg, grown.base).(size := grown.size) && seg.size <= grown.size
    requires !Chase(seg.base, Graph(w, seg), addr, path).Outside?
    ensures Chase(grown.base, Graph(w, grown), AddressFromHandle(grown, HandleFromAddress(seg, addr)), path)
            == SameObject(seg, grown, Chase(seg.base, Graph(w, seg), addr, path))
  {
    GraphGrows(w, seg, grown.base, grown.size);
    ChaseToObject(w, seg, Graph(w, seg), grown, Graph(w, grown), addr, path);
  }
}
