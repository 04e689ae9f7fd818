/** The code of the segment manager (segment_manager.hpp, detail/named_proxy.hpp): constructing, finding and
    destroying, with rollback at every point of failure, proved against Registry. */
module SegmentManager {
  import opened Words
  import opened BlockLayout
  import opened Registry

  /** The live objects of the block `h`. */
  function ObjectsAt(live: set<(int, nat)>, h: int): set<(int, nat)> {
    set x | x in live && x.0 == h
  }

  /** Destroying the first `num` objects of a block leaves what was there before, and the object after them. */
  lemma DestroyBuilt(live: set<(int, nat)>, h: int, num: nat)
    requires forall i: nat :: (h, i) !in live
    ensures live + Objects(h, num) - Objects(h, num) == live
    ensures live + Objects(h, num) + {(h, num)} - Objects(h, num) == live + {(h, num)}
    ensures live + Objects(h, num) + {} == live + Objects(h, num)
  {
  }

  class Manager {
    const fmt: Format
    var index: map<Key, int>
    var headers: map<int, Block>
    var buffers: map<int, Buffer>
    var live: set<(int, nat)>
    var lost: nat

    function Now(): Segment
      reads this
    {
      Segment(index, headers, buffers, live, lost)
    }

    constructor (fmt: Format)
      ensures this.fmt == fmt && Now() == Segment(map[], map[], map[], {}, 0)
      ensures Registry.Valid(fmt, Now())
    {
      this.fmt, index, headers, buffers, live, lost := fmt, map[], map[], map[], {}, 0;
    }

    // ---------- memory

    /** Gives a buffer back; objects still alive in it are lost. */
    method Deallocate(buf: int)
      requires buf in buffers
      modifies this`headers, this`buffers, this`live, this`lost
      ensures buffers == old(buffers) - {buf} && headers == old(headers) - {old(buffers)[buf].header}
      ensures live == old(live) - ObjectsAt(old(live), old(buffers)[buf].header)
      ensures lost == old(lost) + |ObjectsAt(old(live), old(buffers)[buf].header)|
    {
      var h := buffers[buf].header;
      lost := lost + |ObjectsAt(live, h)|;
      live := live - ObjectsAt(live, h);
      headers := headers - {h};
      buffers := buffers - {buf};
    }

    /** named_construct_placement_destroy and priv_destroy_n: destroys the first `num` objects, which must be
        alive. */
    method DestroyN(h: int, num: nat)
      requires Objects(h, num) <= live
      modifies this`live
      ensures live == old(live) - Objects(h, num)
    {
      var destroyed := 0;
      while destroyed < num
        invariant destroyed <= num
        invariant live == old(live) - Objects(h, destroyed)
      {
        assert (h, destroyed) in live;
        live := live - {(h, destroyed)};
        destroyed := destroyed + 1;
      }
    }

    /** CtorArgN::construct_n: builds `num` objects, or destroys those counted so far and rethrows.  An object
        is counted only after the iterators were incremented, so one whose increment throws is forgotten. */
    method ConstructN(h: int, num: nat, failure: Failure) returns (ok: bool)
      requires forall i: nat :: (h, i) !in live
      modifies this`live
      ensures ok <==> !Interrupted(failure, num)
      ensures ok ==> live == old(live) + Objects(h, num)
      ensures !ok ==> live == old(live) + if failure.IncrementThrows? then {(h, failure.at)} else {}
    {
      var constructed, throws := 0, false;
      while constructed < num && !throws
        invariant constructed <= num
        invariant throws ==> Interrupted(failure, num) && failure.at == constructed
        invariant !throws && failure != NoFailure ==> constructed <= failure.at
        invariant live == old(live) + Objects(h, constructed)
                                    + if throws && failure.IncrementThrows? then {(h, constructed)} else {}
        decreases num - constructed, !throws
      {
        if failure == CtorThrows(constructed) {
          throws := true;
        } else {
          assert (h, constructed) !in live;
          live := live + {(h, constructed)};
          if failure == IncrementThrows(constructed) {
            throws := true;
          } else {
            constructed := constructed + 1;
          }
        }
      }
      if throws {
        DestroyN(h, constructed);
        DestroyBuilt(old(live), h, constructed);
      }
      return !throws;
    }

    // ---------- construct

    /** generic_construct: the name chooses the kind of array.  Without `dothrow` only a constructor's exception
        escapes; an existing name is an error, or gives the array that find gives; a call that builds nothing
        leaves index, headers, buffers and live objects as they were. */
    method GenericConstruct(name: Name, ty: Type, num: nat, try2find: bool, dothrow: bool, env: Env)
        returns (r: Outcome, ghost q: Request)
      requires Registry.Valid(fmt, Now())
      requires Allocatable(fmt, Now(), Request(KeyOf(name, ty), ty, num, try2find, dothrow), env.got)
      modifies this
      ensures q == Request(KeyOf(name, ty), ty, num, try2find, dothrow)
      ensures r == OutcomeOf(fmt, old(Now()), q, env) && Now() == Constructed(fmt, old(Now()), q, env)
      ensures Registry.Valid(fmt, Now()) <==>
              !Constructs(fmt, old(Now()), q, env) || (FitsHeader(fmt, q) && ShortName(fmt, q.key))
      ensures (!dothrow && r.Throws? ==> r.error == FromConstructor) && (dothrow ==> !r.Null?)
      ensures q.key == if name == NoName then Anonymous
                       else if name == UniqueName then Unique(ty.name) else Named(name.name)
      ensures r.Ptr? <==>
              && num * ty.size < Pow2(fmt.w) && !(name != NoName && env.checkThrows)
              && if name != NoName && q.key in old(index) then try2find
                 else env.got != 0 && !(name != NoName && env.commitThrows)
                      && (env.failure == NoFailure || env.failure.at >= num)
      ensures r.Ptr? && name != NoName && q.key in old(index) ==>
                exists h :: h in old(headers) && old(headers)[h].key == q.key && r.addr == h + fmt.sizeB
      ensures r.Ptr? && !(name != NoName && q.key in old(index)) ==>
                var h := r.addr - fmt.sizeB;
                && h !in old(headers) && h in headers && headers[h].key == q.key
                && headers[h].ty == ty && headers[h].num == num && live == old(live) + Objects(h, num)
      ensures r == Throws(AlreadyExists) <==>
              && num * ty.size < Pow2(fmt.w) && name != NoName && !env.checkThrows && q.key in old(index)
              && !try2find && dothrow
      ensures !(r.Ptr? && q.key !in old(index)) ==>
                index == old(index) && headers == old(headers) && buffers == old(buffers) && live == old(live)
    {
      ghost var s := Now();
      q := Request(KeyOf(name, ty), ty, num, try2find, dothrow);
      r := Dispatch(name, ty, num, try2find, dothrow, env);
      CallEnds(fmt, s, q, env);
      OutcomeExactly(fmt, s, q, env);
      if r.Ptr? {
        PointerExactly(fmt, s, q, env);
      }
      if Constructs(fmt, s, q, env) {
        NewHeader(fmt, s, q, env.got);
      }
      if Constructs(fmt, s, q, env) {
        AddedValid(fmt, s, q, env.got);
      }
    }

    method Dispatch(name: Name, ty: Type, num: nat, try2find: bool, dothrow: bool, env: Env) returns (r: Outcome)
      requires Registry.Valid(fmt, Now())
      requires Allocatable(fmt, Now(), Request(KeyOf(name, ty), ty, num, try2find, dothrow), env.got)
      modifies this
      ensures var q := Request(KeyOf(name, ty), ty, num, try2find, dothrow);
              r == OutcomeOf(fmt, old(Now()), q, env) && Now() == Constructed(fmt, old(Now()), q, env)
    {
      if num > (Pow2(fmt.w) - 1) / ty.size {
        r := if dothrow then Throws(BadAlloc) else Null;
      } else if name == NoName {
        r := PrivAnonymousConstruct(ty, num, try2find, dothrow, env);
      } else if name == UniqueName {
        r := PrivGenericNamedConstruct(Unique(ty.name), ty, num, try2find, dothrow, env);
      } else {
        r := PrivGenericNamedConstruct(Named(name.name), ty, num, try2find, dothrow, env);
      }
    }

    method PrivAnonymousConstruct(ty: Type, num: nat, ghost try2find: bool, dothrow: bool, env: Env)
        returns (r: Outcome)
      requires Registry.Valid(fmt, Now())
      requires Allocatable(fmt, Now(), Request(Anonymous, ty, num, try2find, dothrow), env.got)
      requires !TooMany(fmt, Request(Anonymous, ty, num, try2find, dothrow))
      modifies this
      ensures var q := Request(Anonymous, ty, num, try2find, dothrow);
              r == OutcomeOf(fmt, old(Now()), q, env) && Now() == Constructed(fmt, old(Now()), q, env)
    {
      ghost var s, q := Now(), Request(Anonymous, ty, num, try2find, dothrow);
      if env.got == 0 {
        return if dothrow then Throws(BadAlloc) else Null;
      }
      NewHeader(fmt, s, q, env.got);
      var hdr := PlaceHeader(Anonymous, ty, num, env.got);
      var built := ConstructN(hdr, num, env.failure);
      if !built {
        Rollback(env.got, hdr, s, env.failure);
        return Throws(FromConstructor);
      }
      return Ptr(ValueAt(fmt, hdr));
    }

    /** allocate_aligned gave the buffer `got`: the block header goes into it. */
    method PlaceHeader(key: Key, ty: Type, num: nat, got: int) returns (hdr: int)
      requires fmt.w >= 4
      modifies this`headers, this`buffers
      ensures hdr == HeaderAt(fmt, key, ty, got)
      ensures buffers == old(buffers)[got := Buffer(TotalSize(fmt, key, ty, num), hdr)]
      ensures headers == old(headers)[hdr := Block(key, StoredBytes(fmt.w, num * ty.size), ty, num)]
    {
      var shape := ShapeOf(fmt, key, ty);
      if HasHeader(fmt, key) {
        hdr := FromFirstHeader(shape, got + FrontWithHeader(shape));
      } else {
        hdr := got + FrontWithoutHeader(shape);
      }
      buffers := buffers[got := Buffer(TotalSize(fmt, key, ty, num), hdr)];
      headers := headers[hdr := Block(key, StoredBytes(fmt.w, num * ty.size), ty, num)];
    }

    /** mem_algo_deallocator's destructor after an exception: memory, headers and objects are as in `s`, but
        for the object an iterator increment made construct_n forget. */
    method Rollback(got: int, hdr: int, ghost s: Segment, ghost failure: Failure)
      requires LiveExact(s.headers, s.live) && hdr !in s.headers && got !in s.buffers && lost == s.lost
      requires got in buffers && buffers[got].header == hdr
      requires buffers - {got} == s.buffers && headers - {hdr} == s.headers
      requires live == s.live + if failure.IncrementThrows? then {(hdr, failure.at)} else {}
      modifies this`headers, this`buffers, this`live, this`lost
      ensures headers == s.headers && buffers == s.buffers && live == s.live
      ensures lost == s.lost + if failure.IncrementThrows? then 1 else 0
    {
      ghost var rest := if failure.IncrementThrows? then {(hdr, failure.at)} else {};
      assert ObjectsAt(live, hdr) == rest;
      assert s.live + rest - rest == s.live;
      Deallocate(got);
    }

    method PrivGenericNamedConstruct(key: Key, ty: Type, num: nat, try2find: bool, dothrow: bool, env: Env)
        returns (r: Outcome)
      requires key != Anonymous && Registry.Valid(fmt, Now())
      requires Allocatable(fmt, Now(), Request(key, ty, num, try2find, dothrow), env.got)
      requires !TooMany(fmt, Request(key, ty, num, try2find, dothrow))
      modifies this
      ensures var q := Request(key, ty, num, try2find, dothrow);
              r == OutcomeOf(fmt, old(Now()), q, env) && Now() == Constructed(fmt, old(Now()), q, env)
    {
      ghost var s, q := Now(), Request(key, ty, num, try2find, dothrow);
      if env.checkThrows {
        return if dothrow then Throws(FromIndex) else Null;
      }
      if key in index {
        if try2find {
          return Ptr(ValueAt(fmt, HeaderOfEntry(fmt, index[key])));
        }
        return if dothrow then Throws(AlreadyExists) else Null;
      }
      if env.got == 0 {
        return if dothrow then Throws(BadAlloc) else Null;
      }
      NewHeader(fmt, s, q, env.got);
      var hdr := PlaceHeader(key, ty, num, env.got);
      UndoEntry(s.headers, hdr, headers[hdr]);
      UndoEntry(s.buffers, env.got, buffers[env.got]);
      if env.commitThrows {
        Rollback(env.got, hdr, s, NoFailure);
        return if dothrow then Throws(FromIndex) else Null;
      }
      var before := index;
      index := index[IndexKey(fmt, key) := EntryOf(fmt, hdr)];
      var built := ConstructN(hdr, num, env.failure);
      if !built {
        // value_eraser erases the element that insert_commit returned, and no other
        index := before;
        Rollback(env.got, hdr, s, env.failure);
        return Throws(FromConstructor);
      }
      return Ptr(ValueAt(fmt, hdr));
    }

    // ---------- find

    /** priv_generic_find. */
    method GenericFind(key: Key, ty: Type) returns (ptr: int, length: int)
      requires Registry.Valid(fmt, Now()) && ty.size > 0
      ensures (ptr, length) == Find(fmt, Now(), key, ty)
      ensures key != Anonymous ==>
                && (ptr == 0 <==> forall h | h in headers :: headers[h].key != key)
                && (ptr == 0 ==> length == 0)
                && forall h | h in headers && headers[h].key == key ::
                     ptr == h + fmt.sizeB && (Matches(headers[h], ty) ==> length == headers[h].num)
    {
      if key != Anonymous {
        FindExactly(fmt, Now(), key, ty);
      }
      ptr, length := 0, 0;
      if key in index {
        var hdr := HeaderOfEntry(fmt, index[key]);
        ptr := ValueAt(fmt, hdr);
        length := headers[hdr].bytes / ty.size;
      }
    }

    // ---------- destroy

    /** priv_generic_named_destroy_impl: erases the entry, destroys the objects and gives the memory back. */
    method NamedDestroyImpl(key: Key, ty: Type)
      requires Registry.Valid(fmt, Now())
      requires key in index && Matches(headers[HeaderOfEntry(fmt, index[key])], ty)
      modifies this
      ensures Now() == Removed(fmt, old(Now()), HeaderOfEntry(fmt, old(index)[key]))
      ensures Registry.Valid(fmt, Now())
    {
      ghost var s := Now();
      var hdr := HeaderOfEntry(fmt, index[key]);
      RemovedValid(fmt, s, hdr);
      var shape := ShapeOf(fmt, key, ty);
      index := index - {key};
      var memory;
      if fmt.node || fmt.intrusive {
        memory := ToFirstHeader(shape, hdr) - FrontWithHeader(shape);
      } else {
        memory := hdr - FrontWithoutHeader(shape);
      }
      Release(hdr, ty, memory, s);
    }

    /** Destroys the objects of a block, as many as its size says, and deallocates `memory`, which must be
        the address that was allocated for it. */
    method Release(hdr: int, ty: Type, memory: int, ghost s: Segment)
      requires headers == s.headers && buffers == s.buffers && live == s.live && lost == s.lost
      requires Registry.Valid(fmt, s) && hdr in headers && Matches(headers[hdr], ty)
      requires memory == BufferAt(fmt, headers[hdr].key, headers[hdr].ty, hdr)
      modifies this`headers, this`buffers, this`live, this`lost
      ensures headers == s.headers - {hdr} && buffers == s.buffers - {memory} && lost == s.lost
      ensures live == s.live - Objects(hdr, s.headers[hdr].num)
    {
      CountOfBytes(headers[hdr].num, headers[hdr].ty.size);
      ObjectsAlive(headers, live, hdr);
      DestroyN(hdr, headers[hdr].bytes / ty.size);
      assert ObjectsAt(live, hdr) == {};
      Deallocate(memory);
    }

    /** priv_generic_named_destroy by name. */
    method NamedDestroy(key: Key, ty: Type) returns (ok: bool)
      requires Registry.Valid(fmt, Now()) && Legal(fmt, Now(), DestroyNamed(key, ty))
      modifies this
      ensures ok <==> key in old(index)
      ensures ok ==> forall h | h in old(headers) && old(headers)[h].key == key ::
                       headers == old(headers) - {h} && live == old(live) - Objects(h, old(headers)[h].num)
      ensures Now() == Next(fmt, old(Now()), DestroyNamed(key, ty)) && Registry.Valid(fmt, Now())
    {
      if key !in index {
        return false;
      }
      OneBlockPerKey(fmt, Now(), key);
      NamedDestroyImpl(key, ty);
      return true;
    }

    /** priv_destroy_ptr: from the value to its header, then by kind; a node index reaches its node from the
        header, the others look the stored name up. */
    method PrivDestroyPtr(ptr: int, ty: Type)
      requires Registry.Valid(fmt, Now()) && Legal(fmt, Now(), DestroyPtr(ptr, ty))
      modifies this
      ensures Now() == Next(fmt, old(Now()), DestroyPtr(ptr, ty)) && Registry.Valid(fmt, Now())
      ensures var h := ptr - fmt.sizeB;
              headers == old(headers) - {h} && live == old(live) - Objects(h, old(headers)[h].num)
    {
      ghost var s := Now();
      var hdr := HeaderOfValue(fmt, ptr);
      FoundBlock(fmt, s, hdr);
      RemovedValid(fmt, s, hdr);
      var key := headers[hdr].key;
      if key == Anonymous {
        Release(hdr, ty, hdr - FrontWithoutHeader(ShapeOf(fmt, key, ty)), s);
        UndoEntry(s.index, Anonymous, 0);
      } else if fmt.node {
        NamedDestroyImpl(key, ty);
      } else {
        var ok := NamedDestroy(key, ty);
      }
    }
  }
}
