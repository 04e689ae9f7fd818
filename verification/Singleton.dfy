/** The intermodule singleton protocol of one process
    (detail/intermodule_singleton_common.hpp, detail/portable_intermodule_singleton.hpp).

    Any number of threads of any number of modules run `initialize_singleton_logic` and
    `finalize_singleton_logic` for any number of singleton types.  Every atomic operation on a state
    word or counter, every write of a module pointer and every functor run under the lock of the
    shared map is one step.  A module is a `nat`, a singleton type is a `nat`, and a key is a pair of
    the two.
 */
module Singleton {
  import opened Options

  datatype Key = Key(m: nat, t: nat)

  datatype Word = Uninitialized | Initializing | Initialized | Broken | Destroyed

  /** The `fd` stored in the shared "lock_file_fd" object: absent, a locked file of this process,
      GMemMarkToBeRemoved, or a descriptor left by an older process that does not validate. */
  datatype Fd = NotPresent | Locked(fd: nat) | MarkedForRemoval | Stale

  /** `ref_count_ptr`. */
  datatype Entry = Entry(obj: nat, refs: int)

  /** One instance of the shared map.  `unlinks` counts the removals of its name. */
  datatype Gmem = Gmem(fd: Fd, attachCount: int, entries: map<nat, Entry>, fromOldProcess: bool, unlinks: nat)

  /** Where a thread stands in `initialize_singleton_logic` / `initialize_global_map_handle`. */
  datatype Pc =
    | Idle
    | FirstCas(k: Key)            // about to CAS Uninitialized -> Initializing
    | Resurrect(k: Key)           // saw Destroyed on a Phoenix singleton
    | SecondCas(k: Key)
    | Spin(k: Key)
    | MapCas(k: Key)              // owns the singleton word, tries to own the module's map word
    | MapResurrect(k: Key)        // saw Destroyed in the map word
    | MapOpen(k: Key)             // owns the map word, about to open or create the shared map
    | MapLock(k: Key)             // map object built, about to run lock_file_logic
    | MapRetry(k: Key)            // lock_file_logic asked for another instance
    | MapReady(k: Key)            // lock_file_logic attached this module
    | Construct(k: Key)           // about to run init_atomic_func
    | Count(k: Key, obj: nat)     // has the object, about to increment the module's count
    | Barrier(k: Key, obj: nat)   // about to rewrite Initializing
    | Assign(k: Key, obj: nat)    // about to write the module pointer
    | Publish(k: Key)             // about to write Initialized
    | Fail(k: Key)                // about to write Broken
    | Returned(k: Key, seen: Word)
    | Threw(k: Key)

  /** Where a module stands in `finalize_singleton_logic` / `destroy_global_map_handle`. */
  datatype Fin =
    | NoFin
    | FinPtr(t: nat)              // fini_atomic_func ran, about to null the module pointer
    | FinWord(t: nat)             // about to write Destroyed
    | FinCount(t: nat)            // about to decrement the module's count
    | FinCheck                    // the decremented count was 1, about to read it again
    | FinUnlink                   // about to run unlink_map_logic
    | FinMap                      // about to write Destroyed in the map word

  /** The statics of one singleton in one module.  `owner`, `held` and `counted` are history: the
      thread that owns the word, whether init_atomic_func ran and fini_atomic_func did not, and
      whether the key is counted in the module's count.  No step reads them. */
  datatype KeyState = KeyState(word: Word, ptr: nat, owner: Option<nat>, held: bool, counted: bool)

  /** The statics of one module, the instance its map object is bound to, and its finalizer.
      `mapOwner` and `attached` are history: the thread that owns the map word, and whether
      lock_file_logic attached the module and unlink_map_logic did not detach it. */
  datatype ModState = ModState(count: int, mapWord: Word, handle: nat, fin: Fin, mapOwner: Option<nat>, attached: bool)

  /** The instances of the shared map and the one its name denotes. */
  datatype Shm = Shm(gmems: seq<Gmem>, linked: Option<nat>)

  /** The singleton objects of the process: `alive` are those constructed and not deleted. */
  datatype Heap = Heap(next: nat, alive: set<nat>)

  datatype State = State(
    phoenix: set<nat>, keys: map<Key, KeyState>, mods: map<nat, ModState>, threads: map<nat, Pc>, shm: Shm, heap: Heap)

  // ---------- reading the zero-initialized statics

  function KeyOf(s: State, k: Key): KeyState {
    if k in s.keys then s.keys[k] else KeyState(Uninitialized, 0, None, false, false)
  }

  function ModOf(s: State, m: nat): ModState {
    if m in s.mods then s.mods[m] else ModState(0, Uninitialized, 0, NoFin, None, false)
  }

  function PcOf(s: State, a: nat): Pc {
    if a in s.threads then s.threads[a] else Idle
  }

  predicate Inside(pc: Pc) {
    pc != Idle && !pc.Returned? && !pc.Threw?
  }

  /** Between winning the CAS of the singleton word and writing Initialized or Broken. */
  predicate Winner(pc: Pc) {
    Inside(pc) && !pc.FirstCas? && !pc.Resurrect? && !pc.SecondCas? && !pc.Spin?
  }

  /** Between winning the CAS of the map word and writing Initialized or Destroyed. */
  predicate MapOwner(pc: Pc) {
    pc.MapOpen? || pc.MapLock? || pc.MapRetry? || pc.MapReady?
  }

  predicate HasObject(pc: Pc) {
    pc.Count? || pc.Barrier? || pc.Assign? || pc.Publish?
  }

  predicate UsesMap(pc: Pc) {
    pc.Construct? || HasObject(pc)
  }

  /** No thread of module `m` is inside initialization: what line 202 assumes of a finalizing module. */
  ghost predicate Quiet(threads: map<nat, Pc>, m: nat) {
    forall a | a in threads && Inside(threads[a]) :: threads[a].k.m != m
  }

  // ---------- effects shared by several steps

  function SetPc(s: State, a: nat, pc: Pc): State {
    s.(threads := s.threads[a := pc])
  }

  function SetKey(s: State, k: Key, ks: KeyState): State {
    s.(keys := s.keys[k := ks])
  }

  function SetMod(s: State, m: nat, ms: ModState): State {
    s.(mods := s.mods[m := ms])
  }

  function SetGmem(shm: Shm, g: nat, gm: Gmem): Shm
    requires g < |shm.gmems|
  {
    shm.(gmems := shm.gmems[g := gm])
  }

  /** `shared_memory_object::remove` of the map's name: ends the link, counted on the instance it ends for. */
  function RemoveName(shm: Shm): Shm {
    if shm.linked.Some? && shm.linked.value < |shm.gmems| then
      var gm := shm.gmems[shm.linked.value];
      Shm(shm.gmems[shm.linked.value := gm.(unlinks := gm.unlinks + 1)], None)
    else shm.(linked := None)
  }

  // ---------- steps of a thread inside initialize_singleton_logic

  /** A call reads the word first.  A module whose finalizer nulled its pointer runs no other code. */
  predicate CanCall(s: State, a: nat, k: Key) {
    !Inside(PcOf(s, a)) && (ModOf(s, k.m).fin == NoFin || ModOf(s, k.m).fin.FinPtr?)
  }

  function CallNext(s: State, a: nat, k: Key): State {
    SetPc(s, a, if KeyOf(s, k).word == Initialized then Returned(k, Initialized) else FirstCas(k))
  }

  /** The CAS Uninitialized -> Initializing of the singleton word, and the branch on the old word. */
  function CasNext(s: State, a: nat, k: Key): State {
    var ks := KeyOf(s, k);
    if ks.word == Uninitialized then
      SetPc(SetKey(s, k, ks.(word := Initializing, owner := Some(a))), a, MapCas(k))
    else
      SetPc(s, a, if ks.word == Initializing then Spin(k)
                  else if ks.word == Initialized then Returned(k, Initialized) else Threw(k))
  }

  function FirstCasNext(s: State, a: nat, k: Key): State {
    if KeyOf(s, k).word == Destroyed && k.t in s.phoenix then SetPc(s, a, Resurrect(k)) else CasNext(s, a, k)
  }

  function ResurrectNext(s: State, a: nat, k: Key): State {
    var ks := KeyOf(s, k);
    SetPc(SetKey(s, k, if ks.word == Destroyed then ks.(word := Uninitialized) else ks), a, SecondCas(k))
  }

  /** The spin loop leaves on any word from Initialized upwards; it asserts that it never reads
      Uninitialized, a case in which this model stays where it is. */
  function SpinNext(s: State, a: nat, k: Key): State {
    var w := KeyOf(s, k).word;
    SetPc(s, a, if w == Uninitialized || w == Initializing then Spin(k) else Returned(k, w))
  }

  function MapCasNext(s: State, a: nat, k: Key): State {
    var ms := ModOf(s, k.m);
    if ms.mapWord == Uninitialized then
      SetPc(SetMod(s, k.m, ms.(mapWord := Initializing, mapOwner := Some(a))), a, MapOpen(k))
    else
      SetPc(s, a, if ms.mapWord == Initializing then MapCas(k)
                  else if ms.mapWord == Destroyed then MapResurrect(k) else Construct(k))
  }

  function MapResurrectNext(s: State, a: nat, k: Key): State {
    var ms := ModOf(s, k.m);
    SetPc(SetMod(s, k.m, if ms.mapWord == Destroyed then ms.(mapWord := Uninitialized) else ms), a, MapCas(k))
  }

  /** Anything thrown while the map is built leaves the map word at Initializing. */
  function MapThrowNext(s: State, a: nat, k: Key): State {
    SetPc(SetMod(s, k.m, ModOf(s, k.m).(mapOwner := None)), a, Fail(k))
  }

  /** `construct_map`: binds the module to the linked instance or creates and links a fresh one. */
  function MapOpenNext(s: State, a: nat, k: Key): State {
    if s.shm.linked.Some? then
      SetPc(SetMod(s, k.m, ModOf(s, k.m).(handle := s.shm.linked.value)), a, MapLock(k))
    else
      var g := |s.shm.gmems|;
      SetPc(SetMod(s, k.m, ModOf(s, k.m).(handle := g)), a, MapLock(k))
        .(shm := Shm(s.shm.gmems + [Gmem(NotPresent, 0, map[], false, 0)], Some(g)))
  }

  /** `lock_file_logic` under the lock of instance `g`: whether the module is attached, and the
      memory after it.  `fd` is the descriptor the operating system gives to a lock file opened now. */
  function LockFile(shm: Shm, g: nat, fd: nat): (bool, Shm)
    requires g < |shm.gmems|
  {
    var gm := shm.gmems[g];
    if gm.fd == NotPresent then (true, SetGmem(shm, g, gm.(fd := Locked(fd), attachCount := 1)))
    else if gm.fd.Locked? then (true, SetGmem(shm, g, gm.(attachCount := gm.attachCount + 1)))
    else if gm.fd == MarkedForRemoval then (false, shm)
    else (false, RemoveName(SetGmem(shm, g, gm.(fd := MarkedForRemoval))))
  }

  function MapLockNext(s: State, a: nat, k: Key, fd: nat): State
    requires ModOf(s, k.m).handle < |s.shm.gmems|
  {
    var ms := ModOf(s, k.m);
    var (ok, shm) := LockFile(s.shm, ms.handle, fd);
    SetPc(SetMod(s, k.m, ms.(attached := ok || ms.attached)), a, if ok then MapReady(k) else MapRetry(k)).(shm := shm)
  }

  function MapRetryNext(s: State, a: nat, k: Key): State {
    SetPc(SetMod(s, k.m, ModOf(s, k.m).(mapWord := Destroyed, mapOwner := None)), a, MapCas(k))
  }

  function MapReadyNext(s: State, a: nat, k: Key): State {
    SetPc(SetMod(s, k.m, ModOf(s, k.m).(mapWord := Initialized, mapOwner := None)), a, Construct(k))
  }

  /** `init_atomic_func` under the map lock: creates the object of the type or joins the existing one. */
  function ConstructNext(s: State, a: nat, k: Key): State
    requires ModOf(s, k.m).handle < |s.shm.gmems|
  {
    var g := ModOf(s, k.m).handle;
    var gm := s.shm.gmems[g];
    var isNew := k.t !in gm.entries;
    var e := if isNew then Entry(s.heap.next, 0) else gm.entries[k.t];
    SetPc(SetKey(s, k, KeyOf(s, k).(held := true)), a, Count(k, e.obj))
      .(shm := SetGmem(s.shm, g, gm.(entries := gm.entries[k.t := e.(refs := e.refs + 1)])),
        heap := if isNew then Heap(s.heap.next + 1, s.heap.alive + {s.heap.next}) else s.heap)
  }

  function CountNext(s: State, a: nat, k: Key, obj: nat): State {
    var ms := ModOf(s, k.m);
    SetPc(SetMod(SetKey(s, k, KeyOf(s, k).(counted := true)), k.m, ms.(count := ms.count + 1)), a, Barrier(k, obj))
  }

  function BarrierNext(s: State, a: nat, k: Key, obj: nat): State {
    SetPc(SetKey(s, k, KeyOf(s, k).(word := Initializing)), a, Assign(k, obj))
  }

  function AssignNext(s: State, a: nat, k: Key, obj: nat): State {
    SetPc(SetKey(s, k, KeyOf(s, k).(ptr := obj)), a, Publish(k))
  }

  function PublishNext(s: State, a: nat, k: Key): State {
    SetPc(SetKey(s, k, KeyOf(s, k).(word := Initialized, owner := None)), a, Returned(k, Initialized))
  }

  function FailNext(s: State, a: nat, k: Key): State {
    SetPc(SetKey(s, k, KeyOf(s, k).(word := Broken, owner := None)), a, Threw(k))
  }

  /** A thread inside initialization can move; the functors need the instance their module is bound to. */
  predicate CanStep(s: State, a: nat) {
    var pc := PcOf(s, a);
    Inside(pc) && (pc.MapLock? || pc.Construct? ==> ModOf(s, pc.k.m).handle < |s.shm.gmems|)
  }

  /** The steps on the singleton word. */
  function WordNext(s: State, a: nat, pc: Pc): State {
    if pc.FirstCas? then FirstCasNext(s, a, pc.k)
    else if pc.Resurrect? then ResurrectNext(s, a, pc.k)
    else if pc.SecondCas? then CasNext(s, a, pc.k)
    else if pc.Spin? then SpinNext(s, a, pc.k)
    else if pc.Barrier? then BarrierNext(s, a, pc.k, pc.obj)
    else if pc.Publish? then PublishNext(s, a, pc.k)
    else if pc.Fail? then FailNext(s, a, pc.k)
    else s
  }

  /** The steps on the map of the module; `throws` chooses the exceptional outcome. */
  function MapNext(s: State, a: nat, pc: Pc, fd: nat, throws: bool): State
    requires pc.MapLock? ==> ModOf(s, pc.k.m).handle < |s.shm.gmems|
  {
    if pc.MapCas? then MapCasNext(s, a, pc.k)
    else if pc.MapResurrect? then MapResurrectNext(s, a, pc.k)
    else if (pc.MapOpen? || pc.MapLock?) && throws then MapThrowNext(s, a, pc.k)
    else if pc.MapOpen? then MapOpenNext(s, a, pc.k)
    else if pc.MapLock? then MapLockNext(s, a, pc.k, fd)
    else if pc.MapRetry? then MapRetryNext(s, a, pc.k)
    else if pc.MapReady? then MapReadyNext(s, a, pc.k)
    else s
  }

  /** The steps on the object. */
  function ObjectNext(s: State, a: nat, pc: Pc, throws: bool): State
    requires pc.Construct? ==> ModOf(s, pc.k.m).handle < |s.shm.gmems|
  {
    if pc.Construct? then if throws then SetPc(s, a, Fail(pc.k)) else ConstructNext(s, a, pc.k)
    else if pc.Count? then CountNext(s, a, pc.k, pc.obj)
    else if pc.Assign? then AssignNext(s, a, pc.k, pc.obj)
    else s
  }

  predicate OnWord(pc: Pc) {
    pc.FirstCas? || pc.Resurrect? || pc.SecondCas? || pc.Spin? || pc.Barrier? || pc.Publish? || pc.Fail?
  }

  predicate OnMap(pc: Pc) {
    pc.MapCas? || pc.MapResurrect? || MapOwner(pc)
  }

  function ThreadNext(s: State, a: nat, fd: nat, throws: bool): State
    requires CanStep(s, a)
  {
    var pc := PcOf(s, a);
    if OnWord(pc) then WordNext(s, a, pc)
    else if OnMap(pc) then MapNext(s, a, pc, fd, throws)
    else ObjectNext(s, a, pc, throws)
  }

  // ---------- steps of a module inside finalize_singleton_logic

  /** The pointer is tested before `fini_atomic_func` runs under the map lock. */
  ghost predicate CanFini(s: State, k: Key) {
    && ModOf(s, k.m).fin == NoFin && Quiet(s.threads, k.m) && KeyOf(s, k).ptr != 0
    && ModOf(s, k.m).handle < |s.shm.gmems| && k.t in s.shm.gmems[ModOf(s, k.m).handle].entries
  }

  ghost function FiniNext(s: State, k: Key): State
    requires CanFini(s, k)
  {
    var ms := ModOf(s, k.m);
    var gm := s.shm.gmems[ms.handle];
    var e := gm.entries[k.t];
    var last := e.refs == 1;
    SetMod(SetKey(s, k, KeyOf(s, k).(held := false)), k.m, ms.(fin := FinPtr(k.t)))
      .(shm := SetGmem(s.shm, ms.handle, gm.(entries := if last then gm.entries - {k.t}
                                                        else gm.entries[k.t := e.(refs := e.refs - 1)])),
        heap := if last then s.heap.(alive := s.heap.alive - {e.obj}) else s.heap)
  }

  function FinPtrNext(s: State, m: nat, t: nat): State {
    SetMod(SetKey(s, Key(m, t), KeyOf(s, Key(m, t)).(ptr := 0)), m, ModOf(s, m).(fin := FinWord(t)))
  }

  function FinWordNext(s: State, m: nat, t: nat): State {
    SetMod(SetKey(s, Key(m, t), KeyOf(s, Key(m, t)).(word := Destroyed)), m, ModOf(s, m).(fin := FinCount(t)))
  }

  function FinCountNext(s: State, m: nat, t: nat): State {
    var ms := ModOf(s, m);
    SetMod(SetKey(s, Key(m, t), KeyOf(s, Key(m, t)).(counted := false)), m,
           ms.(count := ms.count - 1, fin := if ms.count == 1 then FinCheck else NoFin))
  }

  function FinCheckNext(s: State, m: nat): State {
    var ms := ModOf(s, m);
    SetMod(s, m, ms.(fin := if ms.count == 0 then FinUnlink else NoFin))
  }

  /** `unlink_map_logic` under the lock of instance `g`. */
  function UnlinkMap(shm: Shm, g: nat): Shm
    requires g < |shm.gmems|
  {
    var gm := shm.gmems[g];
    if gm.attachCount == 1 && gm.fd.Locked? && gm.fd.fd > 0 then
      RemoveName(SetGmem(shm, g, gm.(attachCount := 0, fd := MarkedForRemoval)))
    else SetGmem(shm, g, gm.(attachCount := gm.attachCount - 1))
  }

  function FinUnlinkNext(s: State, m: nat): State
    requires ModOf(s, m).handle < |s.shm.gmems|
  {
    var ms := ModOf(s, m);
    SetMod(s, m, ms.(fin := FinMap, attached := false)).(shm := UnlinkMap(s.shm, ms.handle))
  }

  function FinMapNext(s: State, m: nat): State {
    SetMod(s, m, ModOf(s, m).(fin := NoFin, mapWord := Destroyed))
  }

  ghost predicate CanFinish(s: State, m: nat) {
    && ModOf(s, m).fin != NoFin && Quiet(s.threads, m)
    && (ModOf(s, m).fin == FinUnlink ==> ModOf(s, m).handle < |s.shm.gmems|)
  }

  ghost function FinNext(s: State, m: nat): State
    requires CanFinish(s, m)
  {
    var f := ModOf(s, m).fin;
    if f.FinPtr? then FinPtrNext(s, m, f.t)
    else if f.FinWord? then FinWordNext(s, m, f.t)
    else if f.FinCount? then FinCountNext(s, m, f.t)
    else if f == FinCheck then FinCheckNext(s, m)
    else if f == FinUnlink then FinUnlinkNext(s, m)
    else FinMapNext(s, m)
  }

  // ---------- runs

  datatype Label =
    | Call(a: nat, k: Key)
    | ThreadStep(a: nat, fd: nat, throws: bool)
    | Fini(k: Key)
    | FinStep(m: nat)

  ghost predicate Enabled(s: State, l: Label) {
    if l.Call? then CanCall(s, l.a, l.k)
    else if l.ThreadStep? then CanStep(s, l.a)
    else if l.Fini? then CanFini(s, l.k)
    else CanFinish(s, l.m)
  }

  ghost function Next(s: State, l: Label): State
    requires Enabled(s, l)
  {
    if l.Call? then CallNext(s, l.a, l.k)
    else if l.ThreadStep? then ThreadNext(s, l.a, l.fd, l.throws)
    else if l.Fini? then FiniNext(s, l.k)
    else FinNext(s, l.m)
  }

  /** Zero-initialized statics; the map's name is free or denotes an instance of an older process. */
  ghost predicate Init(s: State) {
    && s.keys == map[] && s.mods == map[] && s.threads == map[] && s.heap == Heap(1, {})
    && (s.shm == Shm([], None)
        || (|s.shm.gmems| == 1 && s.shm.gmems[0].fd == Stale && s.shm.gmems[0].fromOldProcess
            && s.shm.gmems[0].unlinks == 0 && s.shm.linked == Some(0)))
  }

  ghost predicate IsRun(run: seq<State>, labels: seq<Label>) {
    && |run| == |labels| + 1
    && Init(run[0])
    && forall i {:trigger labels[i]} | 0 <= i < |labels| ::
         Enabled(run[i], labels[i]) && run[i + 1] == Next(run[i], labels[i])
  }
}
