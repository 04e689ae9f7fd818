/** Runs of the singleton protocol that show its limits: a lock file with descriptor zero that outlives all
    modules, and a pointer left at a deleted object by the finalizers of two modules. */
module SingletonExamples {
  import opened Options
  import opened Singleton
  import opened SingletonInvariant
  import opened SingletonObjects
  import opened SingletonTheorems
  import opened SingletonProgress

  // ---------- a whole initialization

  /** The state `b` with key `k`, its module and thread `a` at the given places. */
  function At(b: State, a: nat, k: Key, ks: KeyState, ms: ModState, pc: Pc, shm: Shm, heap: Heap): State {
    State(b.phoenix, b.keys[k := ks], b.mods[k.m := ms], b.threads[a := pc], shm, heap)
  }

  lemma Twice<K, V>(m: map<K, V>, k: K, x: V, y: V)
    ensures m[k := x][k := y] == m[k := y]
  {
  }

  /** Thread `a` steps from one such state to another. */
  lemma AtStep(b: State, a: nat, k: Key, ks: KeyState, ms: ModState, pc: Pc, shm: Shm, heap: Heap, fd: nat,
               ks': KeyState, ms': ModState, pc': Pc, shm': Shm, heap': Heap)
    requires Reaches(At(b, a, k, ks, ms, pc, shm, heap)) && CanStep(At(b, a, k, ks, ms, pc, shm, heap), a)
    requires var s := At(b, a, k, ks, ms, pc, shm, heap);
             var s' := ThreadNext(s, a, fd, false);
             && s'.phoenix == b.phoenix && s'.shm == shm' && s'.heap == heap'
             && (s'.keys == s.keys[k := ks'] || (s'.keys == s.keys && ks' == ks))
             && (s'.mods == s.mods[k.m := ms'] || (s'.mods == s.mods && ms' == ms))
             && s'.threads == s.threads[a := pc']
    ensures Reaches(At(b, a, k, ks', ms', pc', shm', heap'))
  {
    Twice(b.keys, k, ks, ks');
    Twice(b.mods, k.m, ms, ms');
    Twice(b.threads, a, pc, pc');
    ReachStep(At(b, a, k, ks, ms, pc, shm, heap), ThreadStep(a, fd, false), At(b, a, k, ks', ms', pc', shm', heap'));
  }

  /** Nothing of module `k.m` has run in `b`. */
  predicate Untouched(b: State, a: nat, k: Key) {
    k !in b.keys && k.m !in b.mods && a !in b.threads
  }

  function Winning(a: nat): KeyState {
    KeyState(Initializing, 0, Some(a), false, false)
  }

  function Opening(a: nat, handle: nat, attached: bool): ModState {
    ModState(0, Initializing, handle, NoFin, Some(a), attached)
  }

  lemma WinsWord(b: State, a: nat, k: Key)
    requires Reaches(b) && Untouched(b, a, k)
    ensures Reaches(SetPc(SetKey(b, k, Winning(a)), a, MapCas(k)))
  {
    var s := SetPc(b, a, FirstCas(k));
    ReachStep(b, Call(a, k), s);
    Twice(b.threads, a, FirstCas(k), MapCas(k));
    ReachStep(s, ThreadStep(a, 0, false), SetPc(SetKey(b, k, Winning(a)), a, MapCas(k)));
  }

  lemma Enters(b: State, a: nat, k: Key)
    requires Reaches(b) && Untouched(b, a, k)
    ensures Reaches(At(b, a, k, Winning(a), Opening(a, 0, false), MapOpen(k), b.shm, b.heap))
  {
    WinsWord(b, a, k);
    Twice(b.threads, a, MapCas(k), MapOpen(k));
    ReachStep(SetPc(SetKey(b, k, Winning(a)), a, MapCas(k)), ThreadStep(a, 0, false),
              At(b, a, k, Winning(a), Opening(a, 0, false), MapOpen(k), b.shm, b.heap));
  }

  /** The shared memory once the map is open, and once its lock file is locked. */
  function OpenedShm(shm: Shm): Shm {
    if shm.linked.Some? then shm else Shm(shm.gmems + [Gmem(NotPresent, 0, map[], false, 0)], Some(|shm.gmems|))
  }

  lemma OpensMap(b: State, a: nat, k: Key, g: nat)
    requires Reaches(b) && Untouched(b, a, k) && OpenedShm(b.shm).linked == Some(g)
    ensures Reaches(At(b, a, k, Winning(a), Opening(a, g, false), MapLock(k), OpenedShm(b.shm), b.heap))
  {
    Enters(b, a, k);
    AtStep(b, a, k, Winning(a), Opening(a, 0, false), MapOpen(k), b.shm, b.heap, 0,
           Winning(a), Opening(a, g, false), MapLock(k), OpenedShm(b.shm), b.heap);
  }

  lemma LocksFile(b: State, a: nat, k: Key, g: nat, fd: nat, shm: Shm)
    requires Reaches(b) && Untouched(b, a, k) && OpenedShm(b.shm).linked == Some(g)
    requires g < |OpenedShm(b.shm).gmems| && LockFile(OpenedShm(b.shm), g, fd) == (true, shm)
    ensures Reaches(At(b, a, k, Winning(a), Opening(a, g, true), MapReady(k), shm, b.heap))
  {
    OpensMap(b, a, k, g);
    AtStep(b, a, k, Winning(a), Opening(a, g, false), MapLock(k), OpenedShm(b.shm), b.heap, fd,
           Winning(a), Opening(a, g, true), MapReady(k), shm, b.heap);
  }

  lemma Attaches(b: State, a: nat, k: Key, g: nat, fd: nat, shm: Shm)
    requires Reaches(b) && Untouched(b, a, k) && OpenedShm(b.shm).linked == Some(g)
    requires g < |OpenedShm(b.shm).gmems| && LockFile(OpenedShm(b.shm), g, fd) == (true, shm)
    ensures Reaches(At(b, a, k, Winning(a), Attached(g, 0), Construct(k), shm, b.heap))
  {
    LocksFile(b, a, k, g, fd, shm);
    AtStep(b, a, k, Winning(a), Opening(a, g, true), MapReady(k), shm, b.heap, fd,
           Winning(a), Attached(g, 0), Construct(k), shm, b.heap);
  }

  function Attached(g: nat, count: int): ModState {
    ModState(count, Initialized, g, NoFin, None, true)
  }

  /** The state after a whole initialization that ends with object `o` in the pointer. */
  function AfterInit(b: State, a: nat, k: Key, g: nat, o: nat, shm: Shm, heap: Heap): State {
    At(b, a, k, KeyState(Initialized, o, None, true, true), Attached(g, 1),
       Returned(k, Initialized), shm, heap)
  }

  lemma Counts(b: State, a: nat, k: Key, g: nat, o: nat, shm: Shm, heap: Heap)
    requires Reaches(At(b, a, k, Winning(a).(held := true), Attached(g, 0), Count(k, o), shm, heap))
    ensures Reaches(At(b, a, k, Winning(a).(held := true, counted := true), Attached(g, 1), Barrier(k, o), shm, heap))
  {
    AtStep(b, a, k, Winning(a).(held := true), Attached(g, 0), Count(k, o), shm, heap, 0,
           Winning(a).(held := true, counted := true), Attached(g, 1), Barrier(k, o), shm, heap);
  }

  lemma Assigns(b: State, a: nat, k: Key, g: nat, o: nat, shm: Shm, heap: Heap)
    requires Reaches(At(b, a, k, Winning(a).(held := true, counted := true), Attached(g, 1), Barrier(k, o), shm, heap))
    ensures Reaches(At(b, a, k, KeyState(Initializing, o, Some(a), true, true), Attached(g, 1), Publish(k), shm, heap))
  {
    var ks := Winning(a).(held := true, counted := true);
    AtStep(b, a, k, ks, Attached(g, 1), Barrier(k, o), shm, heap, 0, ks, Attached(g, 1), Assign(k, o), shm, heap);
    AtStep(b, a, k, ks, Attached(g, 1), Assign(k, o), shm, heap, 0,
           ks.(ptr := o), Attached(g, 1), Publish(k), shm, heap);
  }

  lemma Publishes(b: State, a: nat, k: Key, g: nat, o: nat, shm: Shm, heap: Heap)
    requires Reaches(At(b, a, k, Winning(a).(held := true), Attached(g, 0), Count(k, o), shm, heap))
    ensures Reaches(AfterInit(b, a, k, g, o, shm, heap))
  {
    Counts(b, a, k, g, o, shm, heap);
    Assigns(b, a, k, g, o, shm, heap);
    AtStep(b, a, k, KeyState(Initializing, o, Some(a), true, true), Attached(g, 1), Publish(k), shm, heap, 0,
           KeyState(Initialized, o, None, true, true), Attached(g, 1), Returned(k, Initialized), shm, heap);
  }

  /** The only instance, with its lock file at descriptor `fd`, `n` modules attached and one singleton type
      held by all of them. */
  function OneInstance(fd: nat, n: nat): Shm {
    Shm([Gmem(Locked(fd), n, map[0 := Entry(1, n)], false, 0)], Some(0))
  }

  function Empty(): State {
    State({}, map[], map[], map[], Shm([], None), Heap(1, {}))
  }

  function First(fd: nat): State {
    AfterInit(Empty(), 0, Key(0, 0), 0, 1, OneInstance(fd, 1), Heap(2, {1}))
  }

  function Second(fd: nat): State {
    AfterInit(First(fd), 1, Key(1, 0), 0, 1, OneInstance(fd, 2), Heap(2, {1}))
  }

  /** Module 0 creates the map with its lock file at descriptor `fd`, and the singleton of type 0. */
  lemma FirstModule(fd: nat)
    ensures Reaches(First(fd))
  {
    var b, k := Empty(), Key(0, 0);
    assert IsRun([b], []) && [b][|[b]| - 1] == b;
    var shm := Shm([Gmem(Locked(fd), 1, map[], false, 0)], Some(0));
    assert OpenedShm(b.shm).gmems == [Gmem(NotPresent, 0, map[], false, 0)];
    Replaced(Gmem(NotPresent, 0, map[], false, 0), shm.gmems[0]);
    Attaches(b, 0, k, 0, fd, shm);
    Creates(b, k, fd, shm);
    Publishes(b, 0, k, 0, 1, OneInstance(fd, 1), Heap(2, {1}));
  }

  lemma Creates(b: State, k: Key, fd: nat, shm: Shm)
    requires k == Key(0, 0) && b == Empty() && shm == Shm([Gmem(Locked(fd), 1, map[], false, 0)], Some(0))
    requires Reaches(At(b, 0, k, Winning(0), Attached(0, 0), Construct(k), shm, b.heap))
    ensures Reaches(At(b, 0, k, Winning(0).(held := true), Attached(0, 0), Count(k, 1),
                       OneInstance(fd, 1), Heap(2, {1})))
  {
    var none: map<nat, Entry> := map[];
    assert none[0 := Entry(1, 1)] == map[0 := Entry(1, 1)];
    Replaced(shm.gmems[0], OneInstance(fd, 1).gmems[0]);
    assert {} + {1} == {1};
    AtStep(b, 0, k, Winning(0), Attached(0, 0), Construct(k), shm, b.heap, 0,
           Winning(0).(held := true), Attached(0, 0), Count(k, 1), OneInstance(fd, 1), Heap(2, {1}));
  }

  lemma Replaced<T>(x: T, y: T)
    ensures [x][0 := y] == [y]
  {
  }

  /** Module 1 joins it. */
  lemma SecondModule(fd: nat)
    ensures Reaches(Second(fd))
  {
    FirstModule(fd);
    var b, k := First(fd), Key(1, 0);
    var shm := Shm([Gmem(Locked(fd), 2, map[0 := Entry(1, 1)], false, 0)], Some(0));
    Replaced(OneInstance(fd, 1).gmems[0], shm.gmems[0]);
    Attaches(b, 1, k, 0, fd, shm);
    Twice(map[], 0, Entry(1, 1), Entry(1, 2));
    Replaced(shm.gmems[0], OneInstance(fd, 2).gmems[0]);
    AtStep(b, 1, k, Winning(1), Attached(0, 0), Construct(k), shm, b.heap, 0,
           Winning(1).(held := true), Attached(0, 0), Count(k, 1), OneInstance(fd, 2), Heap(2, {1}));
    Publishes(b, 1, k, 0, 1, OneInstance(fd, 2), Heap(2, {1}));
  }

  // ---------- a call that returns without a singleton

  /** Two threads of module 0 at the given places, nothing of the shared map opened. */
  function Waiting(ks: KeyState, ms: ModState, pc0: Pc, pc1: Pc): State {
    State({}, map[Key(0, 0) := ks], map[0 := ms], map[0 := pc0, 1 := pc1], Shm([], None), Heap(1, {}))
  }

  lemma SecondCalls()
    ensures Reaches(Waiting(Winning(0), Opening(0, 0, false), MapOpen(Key(0, 0)), FirstCas(Key(0, 0))))
  {
    var b, k := Empty(), Key(0, 0);
    assert IsRun([b], []) && [b][|[b]| - 1] == b;
    Enters(b, 0, k);
    ReachStep(At(b, 0, k, Winning(0), Opening(0, 0, false), MapOpen(k), b.shm, b.heap), Call(1, k),
              Waiting(Winning(0), Opening(0, 0, false), MapOpen(k), FirstCas(k)));
  }

  lemma SecondSpins()
    ensures Reaches(Waiting(Winning(0), Opening(0, 0, false), MapOpen(Key(0, 0)), Spin(Key(0, 0))))
  {
    SecondCalls();
    var k := Key(0, 0);
    ReachStep(Waiting(Winning(0), Opening(0, 0, false), MapOpen(k), FirstCas(k)), ThreadStep(1, 0, false),
              Waiting(Winning(0), Opening(0, 0, false), MapOpen(k), Spin(k)));
  }

  /** The map word that an exception leaves at Initializing. */
  function LeftBehind(): ModState {
    ModState(0, Initializing, 0, NoFin, None, false)
  }

  lemma FirstFails()
    ensures Reaches(Waiting(Winning(0), LeftBehind(), Fail(Key(0, 0)), Spin(Key(0, 0))))
  {
    SecondSpins();
    var k := Key(0, 0);
    ReachStep(Waiting(Winning(0), Opening(0, 0, false), MapOpen(k), Spin(k)), ThreadStep(0, 0, true),
              Waiting(Winning(0), LeftBehind(), Fail(k), Spin(k)));
  }

  lemma FirstBreaks()
    ensures Reaches(Waiting(KeyState(Broken, 0, None, false, false), LeftBehind(), Threw(Key(0, 0)), Spin(Key(0, 0))))
  {
    FirstFails();
    var k := Key(0, 0);
    ReachStep(Waiting(Winning(0), LeftBehind(), Fail(k), Spin(k)), ThreadStep(0, 0, false),
              Waiting(KeyState(Broken, 0, None, false, false), LeftBehind(), Threw(k), Spin(k)));
  }

  /** A waiting thread whose winner fails returns normally, having seen Broken, with a null pointer: the
      assertion at the end of initialize_singleton_logic does not hold. */
  lemma BrokenReturnHappens()
    ensures exists s, a, k :: Reaches(s) && PcOf(s, a) == Returned(k, Broken) && KeyOf(s, k).ptr == 0
  {
    FirstBreaks();
    var k, ks := Key(0, 0), KeyState(Broken, 0, None, false, false);
    var s := Waiting(ks, LeftBehind(), Threw(k), Returned(k, Broken));
    ReachStep(Waiting(ks, LeftBehind(), Threw(k), Spin(k)), ThreadStep(1, 0, false), s);
    assert PcOf(s, 1) == Returned(k, Broken) && KeyOf(s, k).ptr == 0;
  }

  /** The same failure leaves the module's map word at Initializing, from which StuckForEver follows. */
  lemma StuckHappens()
    ensures exists s :: Reaches(s) && Abandoned(s, 0)
  {
    FirstBreaks();
    var s := Waiting(KeyState(Broken, 0, None, false, false), LeftBehind(), Threw(Key(0, 0)), Spin(Key(0, 0)));
    assert Reaches(s) && Abandoned(s, 0);
  }

  // ---------- two modules and a pointer to a deleted object

  /** In every reachable state where two modules hold a singleton: when the first releases it, its pointer is
      still good; when then the second does, the first is left with an Initialized word and a pointer to a
      deleted object, although its own finalizer deleted nothing. */
  lemma TwoHolders(s: State, k1: Key, k2: Key)
    requires Reaches(s) && k1 != k2 && k1.t == k2.t && HoldingKeys(s, k1.t) == {k1, k2}
    requires CanFini(s, k1) && CanFini(s, k2)
    ensures var s1 := FiniNext(s, k1);
            && s1.heap.alive == s.heap.alive && KeyOf(s1, k1).word == Initialized && GoodPointer(s1, k1)
            && CanFini(s1, k2)
            && var s2 := FiniNext(s1, k2);
               && KeyOf(s2, k1) == KeyOf(s1, k1) && ModOf(s2, k1.m).fin == FinPtr(k1.t)
               && KeyOf(s2, k1).ptr != 0 && KeyOf(s2, k1).ptr !in s2.heap.alive && !GoodPointer(s2, k1)
  {
    FirstOfTwo(s, k1, k2);
    var s1 := FiniNext(s, k1);
    ReachStep(s, Fini(k1), s1);
    SecondOfTwo(s1, k1, k2);
  }

  lemma FirstOfTwo(s: State, k1: Key, k2: Key)
    requires Reaches(s) && k1 != k2 && k1.t == k2.t && HoldingKeys(s, k1.t) == {k1, k2}
    requires CanFini(s, k1) && CanFini(s, k2)
    ensures k1.m != k2.m
    ensures var s1 := FiniNext(s, k1);
            && CanFini(s1, k2) && s1.heap == s.heap && KeyOf(s1, k1).word == Initialized
            && ModOf(s1, k1.m).fin == FinPtr(k1.t) && HoldingKeys(s1, k1.t) == {k2}
            && GoodPointer(s1, k1) && KeyOf(s1, k2).ptr == KeyOf(s1, k1).ptr
  {
    assert {k1, k2} != {k1};
    assert {k1, k2} - {k1} == {k2};
    HolderReady(s, k1);
    HolderReady(s, k2);
    assert k1.m != k2.m;
    FirstRelease(s, k1, k2);
  }

  lemma HolderReady(s: State, k: Key)
    requires Reaches(s) && CanFini(s, k)
    ensures k in s.keys && s.keys[k].word == Initialized && OnLinked(s, k.m) && GoodPointer(s, k)
    ensures Live(s.shm)[k.t].refs == 1 <==> HoldingKeys(s, k.t) == {k}
    ensures Live(s.shm)[k.t].refs > 0
    ensures HoldingKeys(FiniNext(s, k), k.t) == HoldingKeys(s, k.t) - {k}
  {
    ReachedInv(s);
    ReleaseReady(s, k);
    OneHolderLess(s, k);
  }

  lemma SecondOfTwo(s: State, k1: Key, k2: Key)
    requires Reaches(s) && CanFini(s, k2) && HoldingKeys(s, k2.t) == {k2} && k1.m != k2.m && k1.t == k2.t
    requires GoodPointer(s, k1) && KeyOf(s, k2).ptr == KeyOf(s, k1).ptr && ModOf(s, k1.m).fin == FinPtr(k1.t)
    ensures var s2 := FiniNext(s, k2);
            && KeyOf(s2, k1) == KeyOf(s, k1) && ModOf(s2, k1.m).fin == FinPtr(k1.t)
            && KeyOf(s2, k1).ptr != 0 && KeyOf(s2, k1).ptr !in s2.heap.alive && !GoodPointer(s2, k1)
  {
    HolderReady(s, k2);
    LastRelease(s, k2);
  }

  /** The situation of TwoHolders is reached: a word is Initialized, its module's pointer is not null, and the
      object it points to was deleted by another module. */
  lemma DanglingPointerHappens()
    ensures exists s, k :: Reaches(s) && KeyOf(s, k).word == Initialized && ModOf(s, k.m).fin == FinPtr(k.t)
                           && KeyOf(s, k).ptr != 0 && KeyOf(s, k).ptr !in s.heap.alive
  {
    SecondModule(3);
    var s, k1, k2 := Second(3), Key(0, 0), Key(1, 0);
    BothHold(s);
    TwoHolders(s, k1, k2);
    var s1 := FiniNext(s, k1);
    ReachStep(s, Fini(k1), s1);
    ReachStep(s1, Fini(k2), FiniNext(s1, k2));
  }

  lemma BothHold(s: State)
    requires s == Second(3)
    ensures HoldingKeys(s, 0) == {Key(0, 0), Key(1, 0)} && CanFini(s, Key(0, 0)) && CanFini(s, Key(1, 0))
  {
    assert s.keys.Keys == {Key(0, 0), Key(1, 0)};
  }

  // ---------- a lock file with descriptor zero

  /** Module 0 alone, at a point of its finalization, with `n` modules counted and no singleton left. */
  function Finalizing(word: Word, ptr: nat, counted: bool, count: int, fin: Fin, attached: bool, n: int): State {
    State({}, map[Key(0, 0) := KeyState(word, ptr, None, false, counted)],
          map[0 := ModState(count, Initialized, 0, fin, None, attached)], map[0 := Returned(Key(0, 0), Initialized)],
          Shm([Gmem(Locked(0), n, map[], false, 0)], Some(0)), Heap(2, {}))
  }

  lemma Releases()
    ensures Reaches(Finalizing(Initialized, 1, true, 1, FinPtr(0), true, 1))
  {
    FirstModule(0);
    var s, s' := First(0), Finalizing(Initialized, 1, true, 1, FinPtr(0), true, 1);
    var one := map[0 := Entry(1, 1)];
    assert one - {0} == map[];
    assert {1} - {1} == {};
    assert FiniNext(s, Key(0, 0)) == s';
    ReachStep(s, Fini(Key(0, 0)), s');
  }

  lemma Nulling()
    ensures Reaches(Finalizing(Initialized, 0, true, 1, FinWord(0), true, 1))
  {
    Releases();
    ReachStep(Finalizing(Initialized, 1, true, 1, FinPtr(0), true, 1), FinStep(0),
              Finalizing(Initialized, 0, true, 1, FinWord(0), true, 1));
  }

  lemma Destroying()
    ensures Reaches(Finalizing(Destroyed, 0, true, 1, FinCount(0), true, 1))
  {
    Nulling();
    ReachStep(Finalizing(Initialized, 0, true, 1, FinWord(0), true, 1), FinStep(0),
              Finalizing(Destroyed, 0, true, 1, FinCount(0), true, 1));
  }

  lemma Detaching()
    ensures Reaches(Finalizing(Destroyed, 0, false, 0, FinUnlink, true, 1))
  {
    Destroying();
    var s := Finalizing(Destroyed, 0, false, 0, FinCheck, true, 1);
    ReachStep(Finalizing(Destroyed, 0, true, 1, FinCount(0), true, 1), FinStep(0), s);
    ReachStep(s, FinStep(0), Finalizing(Destroyed, 0, false, 0, FinUnlink, true, 1));
  }

  /** A run in which the last module detaches and the instance stays linked: its lock file has descriptor
      zero.  By ZeroStaysLinked it is never unlinked afterwards. */
  lemma ZeroDescriptorHappens()
    ensures exists s, s', m: nat ::
              && Reaches(s) && Reaches(s') && CanFinish(s, m) && s' == FinNext(s, m)
              && ModOf(s, m).fin == FinUnlink && AttachedModules(s) == {m} && AttachedModules(s') == {}
              && s'.shm.linked == Some(0) && |s'.shm.gmems| == 1 && s'.shm.gmems[0].fd == Locked(0)
  {
    Detaching();
    var s := Finalizing(Destroyed, 0, false, 0, FinUnlink, true, 1);
    var s' := Finalizing(Destroyed, 0, false, 0, FinMap, false, 0);
    assert FinNext(s, 0) == s';
    ReachStep(s, FinStep(0), s');
    assert s.mods.Keys == {0} && s'.mods.Keys == {0};
    assert AttachedModules(s) == {0} && AttachedModules(s') == {};
    assert Reaches(s) && Reaches(s') && CanFinish(s, 0);
  }

  // ---------- a second type, and a type that comes back

  /** A module that has a singleton gets one of another type. */
  lemma SecondTypeHappens()
    ensures exists s :: Reaches(s) && PcOf(s, 0) == Returned(Key(0, 1), Initialized) && GoodPointer(s, Key(0, 1))
                        && KeyOf(s, Key(0, 0)).word == Initialized
  {
    FirstModule(3);
    var s, k := First(3), Key(0, 1);
    CallWorks(s, 0, k);
    var s1 := CallNext(s, 0, k);
    var t, n := AloneReturns(s1, 0, 3, k);
    OtherKeys(s1, t, 0, 3, n, k, Key(0, 0));
    assert Reaches(t) && PcOf(t, 0) == Returned(k, Initialized) && GoodPointer(t, k);
  }

  /** A thread changes no key but the one it works on. */
  lemma OtherKeys(s: State, t: State, a: nat, fd: nat, n: nat, k: Key, other: Key)
    requires Alone(s, t, a, fd, n) && other != k && PcOf(s, a) != Idle && PcOf(s, a).k == k
    ensures KeyOf(t, other) == KeyOf(s, other)
  {
    var states: seq<State> :| |states| == n + 1 && states[0] == s && states[n] == t && Chain(states, a, fd);
    ChainKeys(states, a, fd, n, k, other);
  }

  lemma {:induction false} ChainKeys(states: seq<State>, a: nat, fd: nat, i: nat, k: Key, other: Key)
    requires Chain(states, a, fd) && i < |states| && other != k
    requires PcOf(states[0], a) != Idle && PcOf(states[0], a).k == k
    ensures KeyOf(states[i], other) == KeyOf(states[0], other)
    ensures PcOf(states[i], a) != Idle && PcOf(states[i], a).k == k
  {
    if i > 0 {
      ChainKeys(states, a, fd, i - 1, k, other);
      assert StepAt(states, i - 1, a, fd);
      OtherKey(states[i - 1], a, fd, k, other);
    }
  }

  lemma OtherKey(s: State, a: nat, fd: nat, k: Key, other: Key)
    requires other != k && CanStep(s, a) && PcOf(s, a).k == k
    ensures var s' := ThreadNext(s, a, fd, false);
            KeyOf(s', other) == KeyOf(s, other) && PcOf(s', a) != Idle && PcOf(s', a).k == k
  {
    if OnWord(PcOf(s, a)) {
      WordFrame(s, a);
    } else if OnMap(PcOf(s, a)) {
      MapFrame(s, a, fd, false);
    } else {
      ObjectFrame(s, a, false);
    }
  }

  /** A Phoenix singleton is constructed by thread 0, finalized, and constructed again by thread 1. */
  lemma PhoenixHappens()
    ensures exists s: State, t: State, k: Key ::
              && Reaches(s) && CanFini(s, k) && k.t in s.phoenix && PcOf(s, 1) == Idle
              && Reaches(t) && PcOf(t, 1) == Returned(k, Initialized) && GoodPointer(t, k)
  {
    var s := PhoenixReady();
    var t := PhoenixRises(s, Key(0, 0), 1, 3);
  }

  lemma PhoenixReady() returns (s: State)
    ensures Reaches(s) && CanFini(s, Key(0, 0)) && 0 in s.phoenix && PcOf(s, 1) == Idle
  {
    var b, k := Empty().(phoenix := {0}), Key(0, 0);
    assert IsRun([b], []) && [b][|[b]| - 1] == b;
    CallWorks(b, 0, k);
    var s1 := CallNext(b, 0, k);
    var n;
    s, n := AloneReturns(s1, 0, 3, k);
    AloneFrame(s1, s, 0, 3, n);
    QuietAgain(s, 0, 0);
    CanRelease(s, k);
  }

  lemma QuietAgain(s: State, a: nat, m: nat)
    requires !Inside(PcOf(s, a)) && forall b: nat | b != a :: PcOf(s, b) == Idle
    ensures Quiet(s.threads, m)
  {
    assert forall b | b in s.threads :: s.threads[b] == PcOf(s, b);
  }
}
