/** The last layers of the invariant of the singleton protocol: the module counts, and the singleton
    objects with their reference counts. */
module SingletonObjects {
  import opened Options
  import opened Singleton
  import opened SingletonInvariant

  // ---------- layer 5: counts

  ghost function CountedOf(keys: map<Key, KeyState>, m: nat): set<Key> {
    set k | k in keys && keys[k].counted && k.m == m
  }

  function CountIn(mods: map<nat, ModState>, m: nat): int {
    if m in mods then mods[m].count else 0
  }

  /** A module's count is the number of its counted keys, and only attached modules hold singletons. */
  ghost predicate CountsOk(keys: map<Key, KeyState>, mods: map<nat, ModState>) {
    && (forall m: nat :: CountIn(mods, m) == |CountedOf(keys, m)|)
    && (forall m | m in mods && (mods[m].fin == FinUnlink || mods[m].fin == FinMap) :: mods[m].count == 0)
    && (forall k | k in keys && keys[k].held :: k.m in mods && mods[k.m].attached)
  }

  ghost predicate InvCounts(s: State) {
    CountsOk(s.keys, s.mods)
  }

  /** A key changes without being counted, uncounted or newly held. */
  lemma SameCounted(keys: map<Key, KeyState>, mods: map<nat, ModState>, k: Key, ks: KeyState)
    requires CountsOk(keys, mods)
    requires if k in keys then
               ks.counted == keys[k].counted && (ks.held ==> keys[k].held || (k.m in mods && mods[k.m].attached))
             else !ks.counted && !ks.held
    ensures CountsOk(keys[k := ks], mods)
  {
    forall m: nat ensures CountIn(mods, m) == |CountedOf(keys[k := ks], m)| {
      assert CountedOf(keys[k := ks], m) == CountedOf(keys, m);
      assert CountIn(mods, m) == |CountedOf(keys, m)|;
    }
  }

  /** A module changes without changing its count, and detaches only when it holds nothing. */
  lemma SameCount(keys: map<Key, KeyState>, mods: map<nat, ModState>, m: nat, ms: ModState)
    requires CountsOk(keys, mods)
    requires ms.count == CountIn(mods, m) && (ms.fin == FinUnlink || ms.fin == FinMap ==> ms.count == 0)
    requires m in mods && mods[m].attached && !ms.attached ==> forall k | k in keys && k.m == m :: !keys[k].held
    ensures CountsOk(keys, mods[m := ms])
  {
    forall m': nat ensures CountIn(mods[m := ms], m') == |CountedOf(keys, m')| {
      assert CountIn(mods, m') == |CountedOf(keys, m')|;
    }
  }

  /** A key is counted and the module's count incremented. */
  lemma CountUp(keys: map<Key, KeyState>, mods: map<nat, ModState>, k: Key, ks: KeyState, ms: ModState)
    requires CountsOk(keys, mods) && k in keys && k.m in mods
    requires !keys[k].counted && ks == keys[k].(counted := true) && ms == mods[k.m].(count := mods[k.m].count + 1)
    requires ms.fin != FinUnlink && ms.fin != FinMap
    ensures CountsOk(keys[k := ks], mods[k.m := ms])
  {
    var keys', mods' := keys[k := ks], mods[k.m := ms];
    forall m: nat ensures CountIn(mods', m) == |CountedOf(keys', m)| {
      assert CountIn(mods, m) == |CountedOf(keys, m)|;
      assert CountedOf(keys', m) == if m == k.m then CountedOf(keys, m) + {k} else CountedOf(keys, m);
    }
  }

  /** A key is uncounted and the module's count decremented. */
  lemma CountDown(keys: map<Key, KeyState>, mods: map<nat, ModState>, k: Key, ks: KeyState, ms: ModState)
    requires CountsOk(keys, mods) && k in keys && k.m in mods
    requires keys[k].counted && ks == keys[k].(counted := false)
    requires ms.count == mods[k.m].count - 1 && ms.attached == mods[k.m].attached
    requires ms.fin != FinUnlink && ms.fin != FinMap
    ensures CountsOk(keys[k := ks], mods[k.m := ms])
  {
    var keys', mods' := keys[k := ks], mods[k.m := ms];
    forall m: nat ensures CountIn(mods', m) == |CountedOf(keys', m)| {
      assert CountIn(mods, m) == |CountedOf(keys, m)|;
      assert CountedOf(keys', m) == if m == k.m then CountedOf(keys, m) - {k} else CountedOf(keys, m);
    }
  }

  lemma WordCounts(s: State, a: nat)
    requires InvCounts(s) && OnWord(PcOf(s, a))
    ensures InvCounts(WordNext(s, a, PcOf(s, a)))
  {
    WordFrame(s, a);
    SameCounted(s.keys, s.mods, PcOf(s, a).k, KeyOf(WordNext(s, a, PcOf(s, a)), PcOf(s, a).k));
  }

  lemma MapCounts(s: State, a: nat, fd: nat, throws: bool)
    requires InvMaps(s) && InvCounts(s) && OnMap(PcOf(s, a)) && CanStep(s, a)
    ensures InvCounts(MapNext(s, a, PcOf(s, a), fd, throws))
  {
    var m := PcOf(s, a).k.m;
    MapFrame(s, a, fd, throws);
    SameCount(s.keys, s.mods, m, ModOf(MapNext(s, a, PcOf(s, a), fd, throws), m));
  }

  lemma ObjectCounts(s: State, a: nat, throws: bool)
    requires InvWords(s) && InvMaps(s) && InvKeys(s) && InvCounts(s)
    requires !OnMap(PcOf(s, a)) && !OnWord(PcOf(s, a)) && CanStep(s, a)
    ensures InvCounts(ObjectNext(s, a, PcOf(s, a), throws))
  {
    var pc, k := PcOf(s, a), PcOf(s, a).k;
    var s' := ObjectNext(s, a, pc, throws);
    assert KeyFine(s.keys[k], k.t, FinIn(s.mods, k.m), s.threads);
    assert ModFine(s.mods[k.m], k.m, s.threads);
    if pc.Count? {
      CountUp(s.keys, s.mods, k, KeyOf(s', k), ModOf(s', k.m));
    } else {
      SameCounted(s.keys, s.mods, k, KeyOf(s', k));
    }
  }

  lemma FiniCounts(s: State, k: Key)
    requires InvCounts(s) && InvKeys(s) && CanFini(s, k)
    ensures InvCounts(FiniNext(s, k))
  {
    var s' := FiniNext(s, k);
    SameCounted(s.keys, s.mods, k, KeyOf(s', k));
    SameCount(s'.keys, s.mods, k.m, ModOf(s', k.m));
  }

  /** A module that is about to detach holds no singleton. */
  lemma NothingHeld(s: State, m: nat)
    requires InvWords(s) && InvKeys(s) && InvCounts(s) && CanFinish(s, m)
    requires ModOf(s, m).fin == FinUnlink
    ensures forall k | k in s.keys && k.m == m :: !s.keys[k].held
  {
    assert CountIn(s.mods, m) == |CountedOf(s.keys, m)|;
    forall k | k in s.keys && k.m == m ensures !s.keys[k].held {
      assert KeyFine(s.keys[k], k.t, FinIn(s.mods, k.m), s.threads);
      assert k !in CountedOf(s.keys, m);
    }
  }

  lemma FinCounts(s: State, m: nat)
    requires InvWords(s) && InvKeys(s) && InvCounts(s) && CanFinish(s, m)
    ensures InvCounts(FinNext(s, m))
  {
    var s' := FinNext(s, m);
    var f := ModOf(s, m).fin;
    if f == FinUnlink {
      NothingHeld(s, m);
      SameCount(s.keys, s.mods, m, ModOf(s', m));
    } else if f.FinCount? {
      assert KeyFine(s.keys[Key(m, f.t)], f.t, f, s.threads);
      CountDown(s.keys, s.mods, Key(m, f.t), KeyOf(s', Key(m, f.t)), ModOf(s', m));
    } else if f.FinPtr? || f.FinWord? {
      SameCounted(s.keys, s.mods, Key(m, f.t), KeyOf(s', Key(m, f.t)));
      SameCount(s'.keys, s.mods, m, ModOf(s', m));
    } else {
      SameCount(s.keys, s.mods, m, ModOf(s', m));
    }
  }

  // ---------- layer 6: objects

  /** The modules holding type `t`, as keys. */
  ghost function HoldersOf(keys: map<Key, KeyState>, t: nat): set<Key> {
    set k | k in keys && keys[k].held && k.t == t
  }

  /** The entries of the instance in use, if there is one. */
  function Live(shm: Shm): map<nat, Entry> {
    if shm.linked.Some? && shm.linked.value < |shm.gmems| && shm.gmems[shm.linked.value].fd.Locked?
    then shm.gmems[shm.linked.value].entries else map[]
  }

  ghost function Objects(live: map<nat, Entry>): set<nat> {
    set t | t in live :: live[t].obj
  }

  predicate CarriesObject(pc: Pc) {
    pc.Count? || pc.Barrier? || pc.Assign?
  }

  /** Every entry counts the modules holding its type, and every held type has an entry. */
  ghost predicate RefsOk(live: map<nat, Entry>, keys: map<Key, KeyState>) {
    && (forall t | t in live :: live[t].refs == |HoldersOf(keys, t)| && live[t].refs > 0)
    && (forall k | k in keys && keys[k].held :: k.t in live)
  }

  /** The objects alive are exactly the objects of the entries, one each. */
  ghost predicate HeapOk(live: map<nat, Entry>, heap: Heap) {
    && heap.next > 0
    && (forall t | t in live :: 0 < live[t].obj < heap.next)
    && (forall t, u | t in live && u in live && t != u :: live[t].obj != live[u].obj)
    && heap.alive == Objects(live)
  }

  /** The pointers handed out are those of the entries. */
  ghost predicate PtrsOk(live: map<nat, Entry>, keys: map<Key, KeyState>, threads: map<nat, Pc>) {
    && (forall a | a in threads && CarriesObject(threads[a]) ::
          threads[a].k.t in live && threads[a].obj == live[threads[a].k.t].obj)
    && (forall k | k in keys && keys[k].held && keys[k].ptr != 0 :: k.t in live && keys[k].ptr == live[k.t].obj)
  }

  ghost predicate InvObjects(s: State) {
    && RefsOk(Live(s.shm), s.keys)
    && HeapOk(Live(s.shm), s.heap)
    && PtrsOk(Live(s.shm), s.keys, s.threads)
  }

  lemma HoldersAfter(keys: map<Key, KeyState>, k: Key, ks: KeyState, t: nat)
    ensures ks.held && k.t == t ==> HoldersOf(keys[k := ks], t) == HoldersOf(keys, t) + {k}
    ensures !(ks.held && k.t == t) ==> HoldersOf(keys[k := ks], t) == HoldersOf(keys, t) - {k}
  {
  }

  /** A key changes without being newly held or released. */
  lemma SameHeld(live: map<nat, Entry>, keys: map<Key, KeyState>, k: Key, ks: KeyState)
    requires RefsOk(live, keys) && if k in keys then ks.held == keys[k].held else !ks.held
    ensures RefsOk(live, keys[k := ks])
  {
    forall t | t in live ensures live[t].refs == |HoldersOf(keys[k := ks], t)| {
      assert HoldersOf(keys[k := ks], t) == HoldersOf(keys, t);
    }
  }

  /** The entry `init_atomic_func` leaves for a type. */
  function Joined(live: map<nat, Entry>, t: nat, heap: Heap): map<nat, Entry> {
    var e := if t !in live then Entry(heap.next, 0) else live[t];
    live[t := e.(refs := e.refs + 1)]
  }

  lemma JoinRefs(live: map<nat, Entry>, keys: map<Key, KeyState>, heap: Heap, k: Key, ks: KeyState)
    requires RefsOk(live, keys) && k in keys && !keys[k].held && ks.held
    ensures RefsOk(Joined(live, k.t, heap), keys[k := ks])
  {
    var live', keys' := Joined(live, k.t, heap), keys[k := ks];
    if k.t !in live {
      assert HoldersOf(keys, k.t) == {};
    }
    forall t | t in live' ensures live'[t].refs == |HoldersOf(keys', t)| && live'[t].refs > 0 {
      HoldersAfter(keys, k, ks, t);
      assert k !in HoldersOf(keys, t);
      assert HoldersOf(keys, t) - {k} == HoldersOf(keys, t);
    }
  }

  lemma JoinHeap(live: map<nat, Entry>, heap: Heap, t: nat)
    requires HeapOk(live, heap)
    ensures HeapOk(Joined(live, t, heap),
                   if t !in live then Heap(heap.next + 1, heap.alive + {heap.next}) else heap)
  {
    var live' := Joined(live, t, heap);
    assert forall u | u in live :: live'[u].obj == live[u].obj && live[u].obj in Objects(live);
    assert live'[t].obj in Objects(live');
    assert Objects(live') == if t !in live then Objects(live) + {heap.next} else Objects(live);
  }

  /** The entries `fini_atomic_func` leaves. */
  function Left(live: map<nat, Entry>, t: nat): map<nat, Entry>
    requires t in live
  {
    if live[t].refs == 1 then live - {t} else live[t := live[t].(refs := live[t].refs - 1)]
  }

  lemma LeaveRefs(live: map<nat, Entry>, keys: map<Key, KeyState>, k: Key, ks: KeyState)
    requires RefsOk(live, keys) && k in keys && keys[k].held && !ks.held
    ensures k.t in live && RefsOk(Left(live, k.t), keys[k := ks])
    ensures live[k.t].refs == 1 <==> HoldersOf(keys, k.t) == {k}
    ensures live[k.t].refs == 1 ==> forall k' | k' in keys && keys[k'].held && k'.t == k.t :: k' == k
  {
    var live', keys' := Left(live, k.t), keys[k := ks];
    assert k in HoldersOf(keys, k.t);
    if live[k.t].refs == 1 {
      assert |HoldersOf(keys, k.t) - {k}| == 0;
      assert HoldersOf(keys, k.t) == {k};
    }
    forall k' | k' in keys && keys[k'].held ensures k' in HoldersOf(keys, k'.t) {
    }
    forall t | t in live' ensures live'[t].refs == |HoldersOf(keys', t)| && live'[t].refs > 0 {
      HoldersAfter(keys, k, ks, t);
      assert t != k.t ==> HoldersOf(keys, t) - {k} == HoldersOf(keys, t);
    }
  }

  lemma ObjectsWithout(live: map<nat, Entry>, t: nat)
    requires t in live && forall u | u in live && u != t :: live[u].obj != live[t].obj
    ensures Objects(live - {t}) == Objects(live) - {live[t].obj}
  {
    assert forall u | u in live && u != t :: u in live - {t} && (live - {t})[u].obj == live[u].obj;
  }

  lemma ObjectsSame(live: map<nat, Entry>, t: nat, refs: int)
    requires t in live
    ensures Objects(live[t := live[t].(refs := refs)]) == Objects(live)
  {
    var live' := live[t := live[t].(refs := refs)];
    assert forall u | u in live :: live'[u].obj == live[u].obj && live[u].obj in Objects(live);
  }

  lemma LeaveHeap(live: map<nat, Entry>, heap: Heap, t: nat)
    requires HeapOk(live, heap) && t in live
    ensures HeapOk(Left(live, t), if live[t].refs == 1 then heap.(alive := heap.alive - {live[t].obj}) else heap)
  {
    if live[t].refs == 1 {
      ObjectsWithout(live, t);
    } else {
      ObjectsSame(live, t, live[t].refs - 1);
    }
  }

  // ---------- what each step does to the entries in use

  lemma MapLive(s: State, a: nat, fd: nat, throws: bool)
    requires InvMaps(s) && InvShm(s) && OnMap(PcOf(s, a)) && CanStep(s, a)
    ensures Live(MapNext(s, a, PcOf(s, a), fd, throws).shm) == Live(s.shm)
  {
    var g := ModOf(s, PcOf(s, a).k.m).handle;
    if PcOf(s, a).MapLock? {
      assert GmemFine(s.shm.gmems[g], s.shm.linked == Some(g), |AttachedSet(s.mods)|);
    }
  }

  lemma CallObjects(s: State, a: nat, k: Key)
    requires InvObjects(s) && CanCall(s, a, k)
    ensures InvObjects(CallNext(s, a, k))
  {
  }

  lemma WordObjects(s: State, a: nat)
    requires InvObjects(s) && OnWord(PcOf(s, a))
    ensures InvObjects(WordNext(s, a, PcOf(s, a)))
  {
    var s' := WordNext(s, a, PcOf(s, a));
    WordFrame(s, a);
    SameHeld(Live(s.shm), s.keys, PcOf(s, a).k, KeyOf(s', PcOf(s, a).k));
  }

  lemma MapObjects(s: State, a: nat, fd: nat, throws: bool)
    requires InvMaps(s) && InvShm(s) && InvObjects(s) && OnMap(PcOf(s, a)) && CanStep(s, a)
    ensures InvObjects(MapNext(s, a, PcOf(s, a), fd, throws))
  {
    MapFrame(s, a, fd, throws);
    MapLive(s, a, fd, throws);
  }

  lemma JoinPtrs(live: map<nat, Entry>, keys: map<Key, KeyState>, threads: map<nat, Pc>, heap: Heap,
                 a: nat, k: Key, ks: KeyState)
    requires PtrsOk(live, keys, threads) && ks.ptr == 0
    ensures PtrsOk(Joined(live, k.t, heap), keys[k := ks], threads[a := Count(k, Joined(live, k.t, heap)[k.t].obj)])
  {
  }

  /** The functors of a module with an Initialized map word work on the entries in use. */
  ghost predicate OnLinked(s: State, m: nat) {
    && ModOf(s, m).handle < |s.shm.gmems| && s.shm.linked == Some(ModOf(s, m).handle)
    && s.shm.gmems[ModOf(s, m).handle].fd.Locked?
  }

  lemma ConstructObjects(s: State, a: nat, k: Key)
    requires InvObjects(s) && OnLinked(s, k.m) && k in s.keys && !s.keys[k].held && s.keys[k].ptr == 0
    ensures InvObjects(ConstructNext(s, a, k))
  {
    var ks := s.keys[k].(held := true);
    assert Live(ConstructNext(s, a, k).shm) == Joined(Live(s.shm), k.t, s.heap);
    JoinRefs(Live(s.shm), s.keys, s.heap, k, ks);
    JoinHeap(Live(s.shm), s.heap, k.t);
    JoinPtrs(Live(s.shm), s.keys, s.threads, s.heap, a, k, ks);
  }

  lemma CountObjects(s: State, a: nat, k: Key, obj: nat)
    requires InvObjects(s) && PcOf(s, a) == Count(k, obj) && k in s.keys
    ensures InvObjects(CountNext(s, a, k, obj))
  {
    SameHeld(Live(s.shm), s.keys, k, s.keys[k].(counted := true));
  }

  lemma AssignObjects(s: State, a: nat, k: Key, obj: nat)
    requires InvObjects(s) && PcOf(s, a) == Assign(k, obj) && k in s.keys
    ensures InvObjects(AssignNext(s, a, k, obj))
  {
    SameHeld(Live(s.shm), s.keys, k, s.keys[k].(ptr := obj));
  }

  lemma ObjectObjects(s: State, a: nat, throws: bool)
    requires InvWords(s) && InvMaps(s) && InvKeys(s) && InvShm(s) && InvObjects(s)
    requires !OnMap(PcOf(s, a)) && !OnWord(PcOf(s, a)) && CanStep(s, a)
    ensures InvObjects(ObjectNext(s, a, PcOf(s, a), throws))
  {
    var pc, k := PcOf(s, a), PcOf(s, a).k;
    if pc.Count? {
      CountObjects(s, a, k, pc.obj);
    } else if pc.Assign? {
      AssignObjects(s, a, k, pc.obj);
    } else if !throws {
      assert KeyFine(s.keys[k], k.t, FinIn(s.mods, k.m), s.threads);
      BoundToLinked(s, k.m);
      ConstructObjects(s, a, k);
    }
  }

  lemma LeavePtrs(live: map<nat, Entry>, keys: map<Key, KeyState>, threads: map<nat, Pc>, k: Key, ks: KeyState)
    requires RefsOk(live, keys) && PtrsOk(live, keys, threads) && k in keys && keys[k].held && !ks.held
    requires forall a | a in threads && CarriesObject(threads[a]) ::
               threads[a].k in keys && keys[threads[a].k].held && threads[a].k != k
    ensures k.t in live && PtrsOk(Left(live, k.t), keys[k := ks], threads)
  {
    LeaveRefs(live, keys, k, ks);
  }

  /** What the finalizing functor does: key `k` releases its type in the linked instance. */
  lemma FiniFrame(s: State, k: Key)
    requires CanFini(s, k) && OnLinked(s, k.m) && k in s.keys
    ensures var s' := FiniNext(s, k);
            && s'.keys == s.keys[k := s.keys[k].(held := false)] && s'.threads == s.threads
            && s'.mods == s.mods[k.m := ModOf(s, k.m).(fin := FinPtr(k.t))]
            && s'.shm.linked == s.shm.linked && |s'.shm.gmems| == |s.shm.gmems|
            && Live(s'.shm) == Left(Live(s.shm), k.t)
            && s'.shm.gmems[ModOf(s, k.m).handle].entries == Live(s'.shm)
            && s'.heap == if Live(s.shm)[k.t].refs != 1 then s.heap
                          else s.heap.(alive := s.heap.alive - {Live(s.shm)[k.t].obj})
  {
  }

  /** What the initializing functor does: key `k` joins its type in the linked instance. */
  lemma ConstructFrame(s: State, a: nat, k: Key)
    requires OnLinked(s, k.m)
    ensures var s' := ConstructNext(s, a, k);
            var e := if k.t in Live(s.shm) then Live(s.shm)[k.t] else Entry(s.heap.next, 0);
            && PcOf(s', a) == Count(k, e.obj) && Live(s'.shm) == Live(s.shm)[k.t := e.(refs := e.refs + 1)]
            && s'.heap.alive == s.heap.alive + if k.t in Live(s.shm) then {} else {s.heap.next}
  {
  }

  lemma FiniObjects(s: State, k: Key)
    requires InvObjects(s) && CanFini(s, k) && OnLinked(s, k.m) && k in s.keys && s.keys[k].held
    requires forall a | a in s.threads && CarriesObject(s.threads[a]) ::
               s.threads[a].k in s.keys && s.keys[s.threads[a].k].held
    ensures InvObjects(FiniNext(s, k))
  {
    var ks := s.keys[k].(held := false);
    FiniFrame(s, k);
    LeaveRefs(Live(s.shm), s.keys, k, ks);
    LeaveHeap(Live(s.shm), s.heap, k.t);
    LeavePtrs(Live(s.shm), s.keys, s.threads, k, ks);
  }

  lemma CarriersHold(s: State)
    requires InvWords(s) && InvKeys(s)
    ensures forall a | a in s.threads && CarriesObject(s.threads[a]) ::
              s.threads[a].k in s.keys && s.keys[s.threads[a].k].held
  {
    forall a | a in s.threads && CarriesObject(s.threads[a])
      ensures s.threads[a].k in s.keys && s.keys[s.threads[a].k].held
    {
      assert KeyFine(s.keys[s.threads[a].k], s.threads[a].k.t, FinIn(s.mods, s.threads[a].k.m), s.threads);
    }
  }

  lemma FinObjects(s: State, m: nat)
    requires InvMaps(s) && InvShm(s) && InvObjects(s) && CanFinish(s, m)
    requires ModOf(s, m).fin == FinUnlink && AttachedSet(s.mods) == {m} ==> Live(s.shm) == map[]
    ensures InvObjects(FinNext(s, m))
  {
    var s' := FinNext(s, m);
    var f := ModOf(s, m).fin;
    if f == FinUnlink {
      BoundToLinked(s, m);
      UnlinkLive(s, m);
    } else if f.FinPtr? || f.FinWord? || f.FinCount? {
      SameHeld(Live(s.shm), s.keys, Key(m, f.t), KeyOf(s', Key(m, f.t)));
    }
  }

  lemma UnlinkLive(s: State, m: nat)
    requires InvMaps(s) && InvShm(s) && CanFinish(s, m) && ModOf(s, m).fin == FinUnlink
    requires AttachedSet(s.mods) == {m} ==> Live(s.shm) == map[]
    ensures Live(FinUnlinkNext(s, m).shm) == Live(s.shm)
  {
    BoundToLinked(s, m);
    assert m in AttachedSet(s.mods);
    assert GmemFine(s.shm.gmems[s.mods[m].handle], true, |AttachedSet(s.mods)|);
    if |AttachedSet(s.mods)| == 1 {
      assert |AttachedSet(s.mods) - {m}| == 0;
      assert AttachedSet(s.mods) == {m};
    }
  }
}
