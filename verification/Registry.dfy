/** What the segment manager promises (segment_manager.hpp): named, unique and anonymous arrays of objects in
    a segment, found through an index of names.  The memory algorithm and the index container are abstract. */
module Registry {
  import opened Words
  import opened BlockLayout

  /** An object type: its size, its alignment as an exponent of two, and the name typeid gives it. */
  datatype Type = Type(size: nat, k: nat, name: string)

  /** Entry in the index of named objects or in the index of unique ones; anonymous objects have none. */
  datatype Key = Anonymous | Named(name: string) | Unique(name: string)

  /** The name argument of a call: null, the unique_instance tag, or a string. */
  datatype Name = NoName | UniqueName | Str(name: string)

  function KeyOf(name: Name, ty: Type): Key {
    if name == NoName then Anonymous else if name == UniqueName then Unique(ty.name) else Named(name.name)
  }

  /** Parameters of a segment manager: word width, block header, index header and character type, and the
      kind of index: a node index keeps its nodes in the blocks, an intrusive one links the blocks. */
  datatype Format = Format(w: nat, kB: nat, sizeB: nat, kH: nat, sizeH: nat, kC: nat, sizeC: nat,
                           node: bool, intrusive: bool)

  function ShapeOf(fmt: Format, key: Key, ty: Type): Shape {
    Shape(fmt.w, fmt.kB, fmt.sizeB, fmt.kH, fmt.sizeH, ty.k,
          if key.Named? then fmt.kC else 0, if key.Named? then fmt.sizeC else 1)
  }

  predicate HasHeader(fmt: Format, key: Key) {
    key != Anonymous && (fmt.node || fmt.intrusive)
  }

  /** A constructed array: the header keeps the kind, the name and the size in bytes; `ty` and `num` record
      what was constructed. */
  datatype Block = Block(key: Key, bytes: nat, ty: Type, num: nat)

  /** A buffer given by the memory algorithm, and the block header in it. */
  datatype Buffer = Buffer(size: nat, header: int)

  /** The segment: index entries, block headers by address, allocated buffers by address, the objects alive
      (block header and position in the array), and how many objects lost their memory undestroyed. */
  datatype Segment = Segment(index: map<Key, int>, headers: map<int, Block>, buffers: map<int, Buffer>,
                             live: set<(int, nat)>, lost: nat)

  /** The objects of an array. */
  function Objects(header: int, num: nat): (r: set<(int, nat)>)
    ensures forall h, i: nat :: (h, i) in r <==> h == header && i < num
  {
    if num == 0 then {} else Objects(header, num - 1) + {(header, num - 1)}
  }

  // ---------- addresses

  function HeaderAt(fmt: Format, key: Key, ty: Type, buf: int): int {
    HeaderInBuffer(ShapeOf(fmt, key, ty), HasHeader(fmt, key), buf)
  }

  function BufferAt(fmt: Format, key: Key, ty: Type, header: int): int {
    BufferOfHeader(ShapeOf(fmt, key, ty), HasHeader(fmt, key), header)
  }

  function ValueAt(fmt: Format, header: int): int {
    header + fmt.sizeB
  }

  function HeaderOfValue(fmt: Format, value: int): int {
    value - fmt.sizeB
  }

  /** The distance between the headers does not depend on the type of the values. */
  function BetweenHeaders(fmt: Format): int {
    Between(ShapeOf(fmt, Anonymous, Type(1, 0, "")))
  }

  /** What the index stores for a block: the index header of an intrusive index, else the block header. */
  function EntryOf(fmt: Format, header: int): int {
    if fmt.intrusive then header - BetweenHeaders(fmt) else header
  }

  function HeaderOfEntry(fmt: Format, entry: int): int {
    if fmt.intrusive then entry + BetweenHeaders(fmt) else entry
  }

  // ---------- names in the index

  /** Lengths of names are stored in 16 bits. */
  const NAME_LENGTHS: nat := 0x1_0000

  /** How an index compares the name looked for with the name of a block: an intrusive one takes the length
      stored in the block, and that many characters. */
  predicate SameName(fmt: Format, probe: string, stored: string) {
    if fmt.intrusive then |probe| == |stored| % NAME_LENGTHS && probe == stored[..|probe|] else probe == stored
  }

  /** The name under which an index finds a block. */
  function FoundAs(fmt: Format, name: string): string {
    if fmt.intrusive then name[..|name| % NAME_LENGTHS] else name
  }

  function IndexKey(fmt: Format, key: Key): Key {
    if key == Anonymous then key
    else if key.Named? then Named(FoundAs(fmt, key.name)) else Unique(FoundAs(fmt, key.name))
  }

  /** Names that the index finds as they are. */
  predicate ShortName(fmt: Format, key: Key) {
    fmt.intrusive && key != Anonymous ==> |key.name| < NAME_LENGTHS
  }

  /** A block is found under exactly one name, which is its own exactly when that is short. */
  lemma FoundUnder(fmt: Format, key: Key, probe: string)
    requires key != Anonymous
    ensures SameName(fmt, probe, key.name) <==> probe == FoundAs(fmt, key.name)
    ensures IndexKey(fmt, key) == key <==> ShortName(fmt, key)
    ensures SameName(fmt, key.name, key.name) <==> ShortName(fmt, key)
  {
    if fmt.intrusive && |key.name| < NAME_LENGTHS {
      assert |key.name| % NAME_LENGTHS == |key.name|;
      assert key.name[..|key.name|] == key.name;
    } else if fmt.intrusive {
      assert |key.name| % NAME_LENGTHS < NAME_LENGTHS;
    }
  }

  /** The bytes of the terminated name in a block. */
  function NameSize(fmt: Format, key: Key): nat
    requires key != Anonymous
  {
    NameBytes(ShapeOf(fmt, key, Type(1, 0, "")), |key.name|)
  }

  function TotalSize(fmt: Format, key: Key, ty: Type, num: nat): nat
    requires fmt.w >= 4
  {
    var s, stored := ShapeOf(fmt, key, ty), StoredBytes(fmt.w, num * ty.size);
    if key == Anonymous then TotalAnonymous(s, stored)
    else TotalNamed(s, HasHeader(fmt, key), stored, NameSize(fmt, key))
  }

  // ---------- the invariant

  /** The index holds exactly one entry per named or unique block, under the name kept in the block. */
  predicate IndexExact(fmt: Format, index: map<Key, int>, headers: map<int, Block>) {
    && (forall k | k in index :: && k != Anonymous && HeaderOfEntry(fmt, index[k]) in headers
                                 && headers[HeaderOfEntry(fmt, index[k])].key == k)
    && (forall h | h in headers && headers[h].key != Anonymous ::
          headers[h].key in index && index[headers[h].key] == EntryOf(fmt, h))
  }

  /** Each block sits in a buffer of its own, which destroy finds, and no buffer is without a block. */
  predicate BuffersExact(fmt: Format, headers: map<int, Block>, buffers: map<int, Buffer>) {
    && (forall h | h in headers ::
          var b := BufferAt(fmt, headers[h].key, headers[h].ty, h); b in buffers && buffers[b].header == h)
    && (forall b | b in buffers ::
          && 0 < b && buffers[b].header in headers && b <= buffers[b].header < b + buffers[b].size
          && BufferAt(fmt, headers[buffers[b].header].key, headers[buffers[b].header].ty, buffers[b].header) == b)
  }

  /** Each header holds the size of its array. */
  predicate SizesExact(headers: map<int, Block>) {
    forall h | h in headers :: headers[h].ty.size > 0 && headers[h].bytes == headers[h].num * headers[h].ty.size
  }

  /** The live objects are the objects of the blocks. */
  ghost predicate LiveExact(headers: map<int, Block>, live: set<(int, nat)>) {
    forall h, i: nat :: (h, i) in live <==> h in headers && i < headers[h].num
  }

  ghost predicate Valid(fmt: Format, s: Segment) {
    && IndexExact(fmt, s.index, s.headers) && BuffersExact(fmt, s.headers, s.buffers)
    && SizesExact(s.headers) && LiveExact(s.headers, s.live)
  }

  // ---------- construct

  /** What the outside decides in a call: whether the index check throws, the buffer allocate returns (0 for
      no memory), whether the index commit throws, and which constructor throws, or which increment of the
      constructor's argument iterators right after a constructor. */
  datatype Failure = NoFailure | CtorThrows(at: nat) | IncrementThrows(at: nat)
  datatype Env = Env(checkThrows: bool, got: int, commitThrows: bool, failure: Failure)

  datatype Error = BadAlloc | AlreadyExists | FromIndex | FromConstructor
  datatype Outcome = Ptr(addr: int) | Null | Throws(error: Error)

  datatype Request = Request(key: Key, ty: Type, num: nat, try2find: bool, dothrow: bool)

  predicate Interrupted(failure: Failure, num: nat) {
    failure != NoFailure && failure.at < num
  }

  function Failed(q: Request, error: Error): Outcome {
    if q.dothrow then Throws(error) else Null
  }

  predicate TooMany(fmt: Format, q: Request)
    requires q.ty.size > 0
  {
    q.num > (Pow2(fmt.w) - 1) / q.ty.size
  }

  function OutcomeOf(fmt: Format, s: Segment, q: Request, env: Env): Outcome
    requires q.ty.size > 0
  {
    if TooMany(fmt, q) then Failed(q, BadAlloc)
    else if q.key != Anonymous && env.checkThrows then Failed(q, FromIndex)
    else if q.key != Anonymous && q.key in s.index then
      if q.try2find then Ptr(ValueAt(fmt, HeaderOfEntry(fmt, s.index[q.key]))) else Failed(q, AlreadyExists)
    else if env.got == 0 then Failed(q, BadAlloc)
    else if q.key != Anonymous && env.commitThrows then Failed(q, FromIndex)
    else if Interrupted(env.failure, q.num) then Throws(FromConstructor)
    else Ptr(ValueAt(fmt, HeaderAt(fmt, q.key, q.ty, env.got)))
  }

  /** The call constructs a new array. */
  predicate Constructs(fmt: Format, s: Segment, q: Request, env: Env)
    requires q.ty.size > 0
  {
    OutcomeOf(fmt, s, q, env).Ptr? && (q.key == Anonymous || q.key !in s.index)
  }

  /** The call reached its constructors and an iterator increment threw: the array's last object was built
      and is not destroyed. */
  predicate Leaks(fmt: Format, s: Segment, q: Request, env: Env)
    requires q.ty.size > 0
  {
    OutcomeOf(fmt, s, q, env) == Throws(FromConstructor) && env.failure.IncrementThrows?
  }

  function Added(fmt: Format, s: Segment, q: Request, buf: int): Segment
    requires fmt.w >= 4
  {
    var h := HeaderAt(fmt, q.key, q.ty, buf);
    Segment(if q.key == Anonymous then s.index else s.index[IndexKey(fmt, q.key) := EntryOf(fmt, h)],
            s.headers[h := Block(q.key, StoredBytes(fmt.w, q.num * q.ty.size), q.ty, q.num)],
            s.buffers[buf := Buffer(TotalSize(fmt, q.key, q.ty, q.num), h)],
            s.live + Objects(h, q.num), s.lost)
  }

  function Constructed(fmt: Format, s: Segment, q: Request, env: Env): Segment
    requires fmt.w >= 4 && q.ty.size > 0
  {
    if Constructs(fmt, s, q, env) then Added(fmt, s, q, env.got)
    else if Leaks(fmt, s, q, env) then s.(lost := s.lost + 1)
    else s
  }

  /** What the types and the memory algorithm guarantee for a call: a buffer is aligned, and none of the
      allocated ones overlaps it. */
  predicate Allocatable(fmt: Format, s: Segment, q: Request, got: int) {
    && q.ty.size > 0 && ValidShape(ShapeOf(fmt, q.key, q.ty))
    && (q.key != Anonymous ==> SmallName(ShapeOf(fmt, q.key, q.ty), NameSize(fmt, q.key)))
    && (got != 0 ==>
          && got > 0 && GoodBuffer(ShapeOf(fmt, q.key, q.ty), HasHeader(fmt, q.key), got)
          && forall b | b in s.buffers :: got + TotalSize(fmt, q.key, q.ty, q.num) <= b || b + s.buffers[b].size <= got)
  }

  /** The size of the array fits in the block header. */
  predicate FitsHeader(fmt: Format, q: Request)
    requires fmt.w >= 4
  {
    q.num * q.ty.size < Pow2(fmt.w - 2)
  }

  lemma EntryRoundTrip(fmt: Format, x: int)
    ensures HeaderOfEntry(fmt, EntryOf(fmt, x)) == x && EntryOf(fmt, HeaderOfEntry(fmt, x)) == x
  {
  }

  /** What the index keeps of a new block: an intrusive one the index header that stands in the buffer after the
      front space, the others the block header. */
  lemma EntryInBuffer(fmt: Format, key: Key, ty: Type, got: int)
    requires key != Anonymous
    ensures EntryOf(fmt, HeaderAt(fmt, key, ty, got))
            == if fmt.intrusive then got + FrontWithHeader(ShapeOf(fmt, key, ty)) else HeaderAt(fmt, key, ty, got)
  {
  }

  /** A new block header lies inside its buffer, hence where no block header was; destroy finds the buffer. */
  lemma NewHeader(fmt: Format, s: Segment, q: Request, got: int)
    requires Allocatable(fmt, s, q, got) && got != 0 && BuffersExact(fmt, s.headers, s.buffers)
    ensures var h := HeaderAt(fmt, q.key, q.ty, got);
            && got <= h < got + TotalSize(fmt, q.key, q.ty, q.num) && got !in s.buffers
            && h !in s.headers && BufferAt(fmt, q.key, q.ty, h) == got
  {
    HeaderInside(fmt, q.key, q.ty, q.num, got);
  }

  lemma HeaderInside(fmt: Format, key: Key, ty: Type, num: nat, got: int)
    requires var s := ShapeOf(fmt, key, ty); ValidShape(s) && (key != Anonymous ==> SmallName(s, NameSize(fmt, key)))
    ensures var h := HeaderAt(fmt, key, ty, got);
            got <= h < got + TotalSize(fmt, key, ty, num) && BufferAt(fmt, key, ty, h) == got
  {
    var s, header := ShapeOf(fmt, key, ty), HasHeader(fmt, key);
    var stored := StoredBytes(s.w, num * ty.size);
    WalkBack(s, header, got, 0, 0);
    StoredExactly(s.w, num * ty.size);
    if key == Anonymous {
      PrefixFits(s, false);
      AnonymousExact(s, stored);
    } else {
      NamedHeaderInside(s, header, stored, NameSize(fmt, key));
    }
  }

  lemma NamedHeaderInside(s: Shape, header: bool, stored: nat, nameBytes: nat)
    requires ValidShape(s) && stored < Pow2(s.w - 2) && SmallName(s, nameBytes)
    ensures 0 <= Prefix(s, header) - s.sizeB < TotalNamed(s, header, stored, nameBytes)
  {
    PrefixFits(s, header);
    TotalWith(s, header, stored, nameBytes);
    TailOffsets(s, stored);
  }

  /** A new block keeps the invariant exactly when its size and the length of its name fit in the header. */
  lemma AddedValid(fmt: Format, s: Segment, q: Request, got: int)
    requires Valid(fmt, s) && Allocatable(fmt, s, q, got) && got != 0 && (q.key == Anonymous || q.key !in s.index)
    ensures Valid(fmt, Added(fmt, s, q, got)) <==> FitsHeader(fmt, q) && ShortName(fmt, q.key)
  {
    var h := HeaderAt(fmt, q.key, q.ty, got);
    var s' := Added(fmt, s, q, got);
    NewHeader(fmt, s, q, got);
    StoredExactly(fmt.w, q.num * q.ty.size);
    assert s'.headers[h].bytes == StoredBytes(fmt.w, q.num * q.ty.size);
    AddedIndex(fmt, s, q, h, s'.headers[h]);
    AddedBuffers(fmt, s, q, got, h, s'.headers[h], s'.buffers[got]);
    AddedLive(s, h, s'.headers[h]);
  }

  lemma AddedIndex(fmt: Format, s: Segment, q: Request, h: int, b: Block)
    requires IndexExact(fmt, s.index, s.headers) && (q.key == Anonymous || q.key !in s.index) && h !in s.headers
    requires b.key == q.key
    ensures var index := if q.key == Anonymous then s.index else s.index[IndexKey(fmt, q.key) := EntryOf(fmt, h)];
            IndexExact(fmt, index, s.headers[h := b]) <==> ShortName(fmt, q.key)
  {
    EntryRoundTrip(fmt, h);
    if q.key != Anonymous {
      FoundUnder(fmt, q.key, "");
      var index := s.index[IndexKey(fmt, q.key) := EntryOf(fmt, h)];
      assert ShortName(fmt, q.key) <==> q.key in index;
    }
  }

  lemma AddedBuffers(fmt: Format, s: Segment, q: Request, got: int, h: int, b: Block, buffer: Buffer)
    requires BuffersExact(fmt, s.headers, s.buffers) && h !in s.headers && got !in s.buffers
    requires b.key == q.key && b.ty == q.ty && buffer.header == h && 0 < got <= h < got + buffer.size
    requires BufferAt(fmt, q.key, q.ty, h) == got
    ensures BuffersExact(fmt, s.headers[h := b], s.buffers[got := buffer])
  {
  }

  lemma AddedLive(s: Segment, h: int, b: Block)
    requires LiveExact(s.headers, s.live) && h !in s.headers
    ensures LiveExact(s.headers[h := b], s.live + Objects(h, b.num))
  {
  }

  /** In the buffer of a named or unique block there is room for the whole name and its terminator. */
  lemma NameFits(fmt: Format, key: Key, ty: Type, num: nat, got: int)
    requires key != Anonymous && ValidShape(ShapeOf(fmt, key, ty))
    requires SmallName(ShapeOf(fmt, key, ty), NameSize(fmt, key))
    ensures var stored := StoredBytes(fmt.w, num * ty.size);
            var name := HeaderAt(fmt, key, ty, got) + NameOffset(ShapeOf(fmt, key, ty), stored);
            && got < name
            && name + (|key.name| + 1) * (if key.Named? then fmt.sizeC else 1) <= got + TotalSize(fmt, key, ty, num)
  {
    var s, header := ShapeOf(fmt, key, ty), HasHeader(fmt, key);
    var stored := StoredBytes(s.w, num * ty.size);
    StoredExactly(s.w, num * ty.size);
    WalkBack(s, header, got, 0, 0);
    TotalWith(s, header, stored, NameSize(fmt, key));
    TailOffsets(s, stored);
    PrefixFits(s, header);
  }

  /** The stored length of a name has as many bits as its field. */
  lemma NameLengthField()
    ensures NAME_LENGTHS == Pow2(8 * NAME_LEN_SIZE) && NAME_LEN_SIZE == Pow2(NAME_LEN_ALIGN)
  {
    Pow2Add(8, 8);
  }

  /** The pointer construct returns is aligned for the type, and the whole array lies inside the new buffer. */
  lemma ReturnedPointer(fmt: Format, s: Segment, q: Request, env: Env)
    requires Allocatable(fmt, s, q, env.got) && Constructs(fmt, s, q, env) && FitsHeader(fmt, q)
    ensures var r := OutcomeOf(fmt, s, q, env);
            && Aligned(q.ty.k, r.addr) && env.got < r.addr
            && r.addr + q.num * q.ty.size <= env.got + TotalSize(fmt, q.key, q.ty, q.num)
  {
    var shape, header, bytes := ShapeOf(fmt, q.key, q.ty), HasHeader(fmt, q.key), q.num * q.ty.size;
    WalkBack(shape, header, env.got, 0, 0);
    PrefixFits(shape, header);
    AlignedSum(q.ty.k, env.got, Prefix(shape, header));
    if q.key == Anonymous {
      AnonymousLayout(shape, bytes, env.got);
    } else {
      LayoutWith(shape, header, bytes, NameSize(fmt, q.key), env.got);
    }
  }

  // ---------- destroy

  function Removed(fmt: Format, s: Segment, h: int): Segment
    requires h in s.headers
  {
    var b := s.headers[h];
    Segment(s.index - {b.key}, s.headers - {h}, s.buffers - {BufferAt(fmt, b.key, b.ty, h)},
            s.live - Objects(h, b.num), s.lost)
  }

  lemma RemovedValid(fmt: Format, s: Segment, h: int)
    requires Valid(fmt, s) && h in s.headers
    ensures Valid(fmt, Removed(fmt, s, h))
  {
    RemovedIndex(fmt, s, h);
    RemovedBuffers(fmt, s, h);
  }

  lemma RemovedIndex(fmt: Format, s: Segment, h: int)
    requires IndexExact(fmt, s.index, s.headers) && h in s.headers
    ensures IndexExact(fmt, s.index - {s.headers[h].key}, s.headers - {h})
  {
    EntryRoundTrip(fmt, h);
    forall k | k in s.index && k != s.headers[h].key ensures HeaderOfEntry(fmt, s.index[k]) != h {
    }
    forall x | x in s.headers && s.headers[x].key != Anonymous && x != h ensures s.headers[x].key != s.headers[h].key {
      EntryRoundTrip(fmt, x);
    }
  }

  lemma RemovedBuffers(fmt: Format, s: Segment, h: int)
    requires BuffersExact(fmt, s.headers, s.buffers) && h in s.headers
    ensures BuffersExact(fmt, s.headers - {h}, s.buffers - {BufferAt(fmt, s.headers[h].key, s.headers[h].ty, h)})
  {
  }

  lemma RemovedUndoesAdded(fmt: Format, s: Segment, q: Request, env: Env)
    requires Valid(fmt, s) && Allocatable(fmt, s, q, env.got) && Constructs(fmt, s, q, env) && ShortName(fmt, q.key)
    ensures var s' := Constructed(fmt, s, q, env);
            var h := HeaderAt(fmt, q.key, q.ty, env.got);
            h in s'.headers && Removed(fmt, s', h) == s
  {
    NewHeader(fmt, s, q, env.got);
    if q.key != Anonymous {
      FoundUnder(fmt, q.key, "");
    }
    AddThenRemove(fmt, s, q, env.got, HeaderAt(fmt, q.key, q.ty, env.got));
  }

  lemma AddThenRemove(fmt: Format, s: Segment, q: Request, got: int, h: int)
    requires fmt.w >= 4 && h == HeaderAt(fmt, q.key, q.ty, got) && h !in s.headers && got !in s.buffers
    requires q.key !in s.index && LiveExact(s.headers, s.live) && BufferAt(fmt, q.key, q.ty, h) == got
    requires q.key != Anonymous ==> IndexKey(fmt, q.key) == q.key
    ensures Removed(fmt, Added(fmt, s, q, got), h) == s
  {
    var s' := Added(fmt, s, q, got);
    UndoEntry(s.index, q.key, EntryOf(fmt, h));
    UndoEntry(s.headers, h, s'.headers[h]);
    UndoEntry(s.buffers, got, s'.buffers[got]);
    UndoObjects(s.headers, s.live, h, q.num);
  }

  lemma UndoEntry<K, V>(m: map<K, V>, k: K, v: V)
    requires k !in m
    ensures m[k := v] - {k} == m && m - {k} == m
  {
  }

  /** The objects of a block are alive. */
  lemma ObjectsAlive(headers: map<int, Block>, live: set<(int, nat)>, h: int)
    requires LiveExact(headers, live) && h in headers
    ensures Objects(h, headers[h].num) <= live
  {
    forall x | x in Objects(h, headers[h].num) ensures x in live {
      assert x == (x.0, x.1);
    }
  }

  lemma UndoObjects(headers: map<int, Block>, live: set<(int, nat)>, h: int, num: nat)
    requires LiveExact(headers, live) && h !in headers
    ensures live + Objects(h, num) - Objects(h, num) == live
  {
  }

  // ---------- find

  /** The array under a name: the address of its first object and how many there are; (0, 0) when none. */
  function Find(fmt: Format, s: Segment, key: Key, ty: Type): (int, int)
    requires ty.size > 0 && (key in s.index ==> HeaderOfEntry(fmt, s.index[key]) in s.headers)
  {
    if key !in s.index then (0, 0)
    else
      var h := HeaderOfEntry(fmt, s.index[key]);
      (ValueAt(fmt, h), s.headers[h].bytes / ty.size)
  }

  predicate Matches(b: Block, ty: Type) {
    b.ty.size == ty.size && b.ty.k == ty.k
  }

  lemma CountOfBytes(num: nat, size: nat)
    requires size > 0
    ensures num * size / size == num
  {
    DivModUnique(num * size, size, num, 0);
  }

  // ---------- runs

  datatype Call =
    | Construct(q: Request, env: Env)
    | DestroyNamed(key: Key, ty: Type)
    | DestroyPtr(ptr: int, ty: Type)

  /** What callers owe: matching types, pointers that were given out, arrays and names that fit in a block
      header. */
  predicate Legal(fmt: Format, s: Segment, c: Call) {
    if c.Construct? then Allocatable(fmt, s, c.q, c.env.got) && FitsHeader(fmt, c.q) && ShortName(fmt, c.q.key)
    else if c.DestroyPtr? then
      HeaderOfValue(fmt, c.ptr) in s.headers && Matches(s.headers[HeaderOfValue(fmt, c.ptr)], c.ty)
    else
      c.key in s.index ==>
        HeaderOfEntry(fmt, s.index[c.key]) in s.headers && Matches(s.headers[HeaderOfEntry(fmt, s.index[c.key])], c.ty)
  }

  /** The block a call destroys, if any. */
  function Target(fmt: Format, s: Segment, c: Call): (r: set<int>)
    requires Legal(fmt, s, c)
  {
    if c.DestroyPtr? then {HeaderOfValue(fmt, c.ptr)}
    else if c.DestroyNamed? && c.key in s.index then {HeaderOfEntry(fmt, s.index[c.key])}
    else {}
  }

  function Next(fmt: Format, s: Segment, c: Call): Segment
    requires Legal(fmt, s, c)
  {
    if c.Construct? then Constructed(fmt, s, c.q, c.env)
    else if c.DestroyPtr? then Removed(fmt, s, HeaderOfValue(fmt, c.ptr))
    else if c.key in s.index then Removed(fmt, s, HeaderOfEntry(fmt, s.index[c.key]))
    else s
  }

  predicate LegalRun(fmt: Format, s: Segment, calls: seq<Call>)
    decreases |calls|
  {
    calls == [] || (Legal(fmt, s, calls[0]) && LegalRun(fmt, Next(fmt, s, calls[0]), calls[1..]))
  }

  function Run(fmt: Format, s: Segment, calls: seq<Call>): Segment
    requires LegalRun(fmt, s, calls)
    decreases |calls|
  {
    if calls == [] then s else Run(fmt, Next(fmt, s, calls[0]), calls[1..])
  }

  lemma NextValid(fmt: Format, s: Segment, c: Call)
    requires Valid(fmt, s) && Legal(fmt, s, c)
    ensures Valid(fmt, Next(fmt, s, c))
  {
    if c.Construct? {
      if Constructs(fmt, s, c.q, c.env) {
        AddedValid(fmt, s, c.q, c.env.got);
      }
    } else if c.DestroyPtr? {
      RemovedValid(fmt, s, HeaderOfValue(fmt, c.ptr));
    } else if c.key in s.index {
      RemovedValid(fmt, s, HeaderOfEntry(fmt, s.index[c.key]));
    }
  }

  /** Over every run, with failures at any point, the index, the buffers and the live objects match the
      blocks. */
  lemma {:induction false} RunValid(fmt: Format, s: Segment, calls: seq<Call>)
    requires Valid(fmt, s) && LegalRun(fmt, s, calls)
    ensures Valid(fmt, Run(fmt, s, calls))
    decreases |calls|
  {
    if calls != [] {
      NextValid(fmt, s, calls[0]);
      RunValid(fmt, Next(fmt, s, calls[0]), calls[1..]);
    }
  }

  /** No call of the run destroys the block `h`. */
  predicate Spares(fmt: Format, s: Segment, calls: seq<Call>, h: int)
    requires LegalRun(fmt, s, calls)
    decreases |calls|
  {
    calls == [] || (h !in Target(fmt, s, calls[0]) && Spares(fmt, Next(fmt, s, calls[0]), calls[1..], h))
  }

  lemma NextSpares(fmt: Format, s: Segment, c: Call, h: int)
    requires Valid(fmt, s) && Legal(fmt, s, c) && h in s.headers && h !in Target(fmt, s, c)
    ensures h in Next(fmt, s, c).headers && Next(fmt, s, c).headers[h] == s.headers[h]
  {
    if c.Construct? && Constructs(fmt, s, c.q, c.env) {
      NewHeader(fmt, s, c.q, c.env.got);
    }
  }

  /** A block is untouched by every run that does not destroy it. */
  lemma {:induction false} RunSpares(fmt: Format, s: Segment, calls: seq<Call>, h: int)
    requires Valid(fmt, s) && LegalRun(fmt, s, calls) && h in s.headers && Spares(fmt, s, calls, h)
    ensures h in Run(fmt, s, calls).headers && Run(fmt, s, calls).headers[h] == s.headers[h]
    decreases |calls|
  {
    if calls != [] {
      NextSpares(fmt, s, calls[0], h);
      NextValid(fmt, s, calls[0]);
      RunSpares(fmt, Next(fmt, s, calls[0]), calls[1..], h);
    }
  }

  /** Between its construction and its destruction, whatever else happens, an array is found under its name at
      the address construct returned, with its number of objects, and destroying it gives back the buffer
      that construct allocated. */
  lemma FoundUntilDestroyed(fmt: Format, s: Segment, q: Request, env: Env, calls: seq<Call>)
    requires Valid(fmt, s) && Legal(fmt, s, Construct(q, env)) && Constructs(fmt, s, q, env)
    requires var s' := Constructed(fmt, s, q, env);
             LegalRun(fmt, s', calls) && Spares(fmt, s', calls, HeaderAt(fmt, q.key, q.ty, env.got))
    ensures var t := Run(fmt, Constructed(fmt, s, q, env), calls);
            var h := HeaderAt(fmt, q.key, q.ty, env.got);
            && OutcomeOf(fmt, s, q, env) == Ptr(ValueAt(fmt, h))
            && h in t.headers && BufferAt(fmt, t.headers[h].key, t.headers[h].ty, h) == env.got && env.got in t.buffers
            && (q.key != Anonymous ==> q.key in t.index && HeaderOfEntry(fmt, t.index[q.key]) == h)
            && (q.key != Anonymous ==> Find(fmt, t, q.key, q.ty) == (ValueAt(fmt, h), q.num))
  {
    var c := Construct(q, env);
    var s' := Next(fmt, s, c);
    var h := HeaderAt(fmt, q.key, q.ty, env.got);
    NewHeader(fmt, s, q, env.got);
    NextValid(fmt, s, c);
    RunSpares(fmt, s', calls, h);
    RunValid(fmt, s', calls);
    EntryRoundTrip(fmt, h);
    FoundBlock(fmt, Run(fmt, s', calls), h);
    StoredExactly(fmt.w, q.num * q.ty.size);
    CountOfBytes(q.num, q.ty.size);
  }

  /** The block that an entry leads to is the only one with its name. */
  lemma OneBlockPerKey(fmt: Format, s: Segment, key: Key)
    requires Valid(fmt, s) && key in s.index
    ensures forall h | h in s.headers && s.headers[h].key == key :: h == HeaderOfEntry(fmt, s.index[key])
  {
    forall h | h in s.headers && s.headers[h].key == key ensures h == HeaderOfEntry(fmt, s.index[key]) {
      FoundBlock(fmt, s, h);
    }
  }

  lemma FoundBlock(fmt: Format, s: Segment, h: int)
    requires Valid(fmt, s) && h in s.headers
    ensures var b := s.headers[h];
            && BufferAt(fmt, b.key, b.ty, h) in s.buffers
            && (b.key != Anonymous ==> b.key in s.index && HeaderOfEntry(fmt, s.index[b.key]) == h)
  {
    EntryRoundTrip(fmt, h);
  }

  /** A new array is found under the name it was given exactly when the stored length can hold that name's. */
  lemma FoundAfterConstruct(fmt: Format, s: Segment, q: Request, env: Env)
    requires Valid(fmt, s) && Allocatable(fmt, s, q, env.got) && Constructs(fmt, s, q, env) && q.key != Anonymous
    ensures var s' := Constructed(fmt, s, q, env);
            && (q.key in s'.index <==> ShortName(fmt, q.key))
            && (ShortName(fmt, q.key) ==>
                  HeaderOfEntry(fmt, s'.index[q.key]) == HeaderAt(fmt, q.key, q.ty, env.got))
  {
    FoundUnder(fmt, q.key, "");
    EntryRoundTrip(fmt, HeaderAt(fmt, q.key, q.ty, env.got));
  }

  /** Destroying an array by name right after its construction gives back index, headers, buffers and objects as
      they were before, exactly when the index finds the array under its own name; otherwise it does nothing. */
  lemma DestroyUndoesConstruct(fmt: Format, s: Segment, q: Request, env: Env)
    requires Valid(fmt, s) && Allocatable(fmt, s, q, env.got) && Constructs(fmt, s, q, env) && q.key != Anonymous
    ensures var s', c := Constructed(fmt, s, q, env), DestroyNamed(q.key, q.ty);
            && Legal(fmt, s', c) && (Next(fmt, s', c) == s <==> ShortName(fmt, q.key))
            && (!ShortName(fmt, q.key) ==> Next(fmt, s', c) == s')
  {
    var h := HeaderAt(fmt, q.key, q.ty, env.got);
    NewHeader(fmt, s, q, env.got);
    FoundAfterConstruct(fmt, s, q, env);
    if ShortName(fmt, q.key) {
      RemovedUndoesAdded(fmt, s, q, env);
    } else {
      assert h in Constructed(fmt, s, q, env).headers;
    }
  }

  /** The same for a pointer: destroying by the pointer that construct returned undoes the construction. */
  lemma DestroyPtrUndoesConstruct(fmt: Format, s: Segment, q: Request, env: Env)
    requires Valid(fmt, s) && Allocatable(fmt, s, q, env.got) && Constructs(fmt, s, q, env) && ShortName(fmt, q.key)
    ensures var s', c := Constructed(fmt, s, q, env), DestroyPtr(OutcomeOf(fmt, s, q, env).addr, q.ty);
            Legal(fmt, s', c) && Next(fmt, s', c) == s
  {
    RemovedUndoesAdded(fmt, s, q, env);
  }

  /** Where the code falls short: an array of 2^(w-2) bytes passes the overflow check, is built in a buffer that
      holds none of its bytes, and leaves the registry inconsistent.  Here w is 8 and the array has 64 bytes. */
  lemma OversizedArrayHappens()
    ensures var fmt := Format(8, 1, 2, 1, 2, 0, 1, false, false);
            var s := Segment(map[], map[], map[], {}, 0);
            var q := Request(Anonymous, Type(1, 0, "T"), 64, false, true);
            var env := Env(false, 2, false, NoFailure);
            && Valid(fmt, s) && Allocatable(fmt, s, q, env.got) && !TooMany(fmt, q) && Constructs(fmt, s, q, env)
            && !FitsHeader(fmt, q) && !Valid(fmt, Constructed(fmt, s, q, env))
  {
    SmallFormat();
    EmptyValid(Format(8, 1, 2, 1, 2, 0, 1, false, false));
    AddedValid(Format(8, 1, 2, 1, 2, 0, 1, false, false), Segment(map[], map[], map[], {}, 0),
               Request(Anonymous, Type(1, 0, "T"), 64, false, true), 2);
  }

  lemma EmptyValid(fmt: Format)
    ensures Valid(fmt, Segment(map[], map[], map[], {}, 0))
  {
  }

  lemma SmallFormat()
    ensures var shape := ShapeOf(Format(8, 1, 2, 1, 2, 0, 1, false, false), Anonymous, Type(1, 0, "T"));
            ValidShape(shape) && GoodBuffer(shape, false, 2) && Pow2(8) == 256 && Pow2(6) == 64
  {
    assert Pow2(5) == 32 && Pow2(1) == 2;
    WrapZero(2);
    assert Wrap(1, 2) == Wrap(1, 0);
  }

  // ---------- what a call returns

  /** The name is in use. */
  predicate Taken(s: Segment, q: Request) {
    q.key != Anonymous && q.key in s.index
  }

  /** The call gets as far as the memory algorithm. */
  predicate Allocates(fmt: Format, s: Segment, q: Request, env: Env) {
    q.num * q.ty.size < Pow2(fmt.w) && !(q.key != Anonymous && env.checkThrows) && !Taken(s, q)
  }

  lemma TooManyBytes(num: nat, size: nat, limit: nat)
    requires size > 0 && limit > 0
    ensures num > (limit - 1) / size <==> num * size >= limit
  {
    var q, r := (limit - 1) / size, (limit - 1) % size;
    assert limit - 1 == size * q + r;
    if num > q {
      MulMonotone(size, q + 1, num);
    } else {
      MulMonotone(size, num, q);
    }
  }

  /** What a call returns, by its causes.  It gives a pointer exactly when the array fits in the address space,
      the index check does not throw and, for a name in use, it may be found, else there is memory, the index
      commit does not throw and every constructor and increment succeeds.  Each error has its own cause. */
  lemma OutcomeExactly(fmt: Format, s: Segment, q: Request, env: Env)
    requires q.ty.size > 0
    ensures var r := OutcomeOf(fmt, s, q, env);
            var named := q.key != Anonymous;
            && (r.Ptr? <==>
                  && q.num * q.ty.size < Pow2(fmt.w) && !(named && env.checkThrows)
                  && if named && q.key in s.index then q.try2find
                     else env.got != 0 && !(named && env.commitThrows)
                          && (env.failure == NoFailure || env.failure.at >= q.num))
            && (r == Throws(AlreadyExists) <==>
                  && q.num * q.ty.size < Pow2(fmt.w) && named && !env.checkThrows && q.key in s.index
                  && !q.try2find && q.dothrow)
            && (r == Throws(BadAlloc) <==>
                  q.dothrow && (q.num * q.ty.size >= Pow2(fmt.w) || (Allocates(fmt, s, q, env) && env.got == 0)))
            && (r == Throws(FromIndex) <==>
                  && q.dothrow && named && q.num * q.ty.size < Pow2(fmt.w)
                  && (env.checkThrows || (q.key !in s.index && env.got != 0 && env.commitThrows)))
            && (r == Throws(FromConstructor) <==>
                  && Allocates(fmt, s, q, env) && env.got != 0 && !(named && env.commitThrows)
                  && env.failure != NoFailure && env.failure.at < q.num)
            && (r == Null <==> !q.dothrow && !r.Ptr? && r != Throws(FromConstructor))
  {
    TooManyBytes(q.num, q.ty.size, Pow2(fmt.w));
  }

  /** The pointer of a successful call: to the block that has the name in use, or to the one in the new buffer. */
  lemma PointerExactly(fmt: Format, s: Segment, q: Request, env: Env)
    requires Valid(fmt, s) && Allocatable(fmt, s, q, env.got) && OutcomeOf(fmt, s, q, env).Ptr?
    ensures var r := OutcomeOf(fmt, s, q, env);
            if Taken(s, q) then
              exists h :: h in s.headers && s.headers[h].key == q.key && r.addr == h + fmt.sizeB
            else r.addr == env.got + Prefix(ShapeOf(fmt, q.key, q.ty), HasHeader(fmt, q.key))
  {
    WalkBack(ShapeOf(fmt, q.key, q.ty), HasHeader(fmt, q.key), env.got, 0, 0);
  }

  /** find gives (0, 0) exactly when no block has the name, and otherwise the address of the values of the block
      that has it, which is not 0. */
  lemma FindExactly(fmt: Format, s: Segment, key: Key, ty: Type)
    requires Valid(fmt, s) && ty.size > 0 && key != Anonymous
    ensures Find(fmt, s, key, ty).0 == 0 <==> forall h | h in s.headers :: s.headers[h].key != key
    ensures (forall h | h in s.headers :: s.headers[h].key != key) ==> Find(fmt, s, key, ty) == (0, 0)
    ensures forall h | h in s.headers && s.headers[h].key == key ::
              && Find(fmt, s, key, ty).0 == h + fmt.sizeB
              && (Matches(s.headers[h], ty) ==> Find(fmt, s, key, ty).1 == s.headers[h].num)
  {
    forall h | h in s.headers && s.headers[h].key == key
      ensures Find(fmt, s, key, ty).0 == h + fmt.sizeB && h > 0
      ensures Matches(s.headers[h], ty) ==> Find(fmt, s, key, ty).1 == s.headers[h].num
    {
      FoundBlock(fmt, s, h);
      CountOfBytes(s.headers[h].num, s.headers[h].ty.size);
    }
  }

  /** Each way a call can end: without `dothrow` only a constructor's exception escapes; AlreadyExists means
      that the name is taken and was not asked for, and a pointer to an array not built by the call is the
      one find gives; a call that does not construct leaves index, headers, buffers and live objects as
      they were. */
  lemma CallEnds(fmt: Format, s: Segment, q: Request, env: Env)
    requires Valid(fmt, s) && fmt.w >= 4 && q.ty.size > 0
    ensures var r := OutcomeOf(fmt, s, q, env);
            && (!q.dothrow && r.Throws? ==> r.error == FromConstructor)
            && (q.dothrow ==> !r.Null?)
            && (r == Throws(AlreadyExists) ==> q.key in s.index && !q.try2find)
            && (r.Ptr? && q.key in s.index ==> q.try2find && r.addr == Find(fmt, s, q.key, q.ty).0)
            && (r.Ptr? && q.key !in s.index ==> env.got != 0 && Constructs(fmt, s, q, env))
    ensures !Constructs(fmt, s, q, env) ==>
              var s' := Constructed(fmt, s, q, env);
              && s' == s.(lost := s'.lost)
              && (s'.lost != s.lost <==>
                    OutcomeOf(fmt, s, q, env) == Throws(FromConstructor) && env.failure.IncrementThrows?)
  {
  }
}
