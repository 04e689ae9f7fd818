/** What every step of the singleton protocol keeps.  The invariant has layers, each a predicate over
    just the parts of the state it speaks of. */
module SingletonInvariant {
  import opened Options
  import opened Singleton

  // ---------- layer 1: singleton words

  /** A word is Initializing exactly while one thread owns it, and no spinning thread can read
      Uninitialized or Destroyed. */
  ghost predicate WordsOk(keys: map<Key, KeyState>, threads: map<nat, Pc>) {
    && (forall a | a in threads && Winner(threads[a]) :: threads[a].k in keys && keys[threads[a].k].owner == Some(a))
    && (forall k | k in keys && keys[k].owner.Some? ::
          && keys[k].owner.value in threads && Winner(threads[keys[k].owner.value])
          && threads[keys[k].owner.value].k == k)
    && (forall k | k in keys :: keys[k].word == Initializing <==> keys[k].owner.Some?)
    && (forall a | a in threads && threads[a].Spin? ::
          && threads[a].k in keys
          && keys[threads[a].k].word != Uninitialized && keys[threads[a].k].word != Destroyed)
  }

  ghost predicate InvWords(s: State) {
    WordsOk(s.keys, s.threads)
  }

  lemma CallWords(s: State, a: nat, k: Key)
    requires InvWords(s) && CanCall(s, a, k)
    ensures InvWords(CallNext(s, a, k))
  {
  }

  lemma WinnerMoves(keys: map<Key, KeyState>, threads: map<nat, Pc>, a: nat, pc: Pc)
    requires WordsOk(keys, threads)
    requires a in threads && Winner(threads[a]) && Winner(pc) && pc.k == threads[a].k
    ensures WordsOk(keys, threads[a := pc])
  {
  }

  lemma WinnerEnds(keys: map<Key, KeyState>, threads: map<nat, Pc>, a: nat, ks: KeyState, pc: Pc)
    requires WordsOk(keys, threads)
    requires a in threads && Winner(threads[a]) && !Inside(pc)
    requires ks.owner == None && (ks.word == Initialized || ks.word == Broken)
    ensures WordsOk(keys[threads[a].k := ks], threads[a := pc])
  {
  }

  lemma CasWords(s: State, a: nat, k: Key)
    requires InvWords(s) && a in s.threads && !Winner(s.threads[a])
    ensures InvWords(CasNext(s, a, k))
  {
  }

  lemma WordWords(s: State, a: nat)
    requires InvWords(s) && OnWord(PcOf(s, a))
    ensures InvWords(WordNext(s, a, PcOf(s, a)))
  {
    var pc := PcOf(s, a);
    if pc.FirstCas? || pc.SecondCas? {
      CasWords(s, a, pc.k);
    } else if pc.Barrier? {
      WinnerMoves(s.keys, s.threads, a, Assign(pc.k, pc.obj));
      assert s.keys[pc.k := KeyOf(s, pc.k).(word := Initializing)] == s.keys;
    } else if pc.Publish? {
      WinnerEnds(s.keys, s.threads, a, KeyOf(s, pc.k).(word := Initialized, owner := None),
                 Returned(pc.k, Initialized));
    } else if pc.Fail? {
      WinnerEnds(s.keys, s.threads, a, KeyOf(s, pc.k).(word := Broken, owner := None), Threw(pc.k));
    }
  }

  /** A step that changes no more than module `k.m` and the shared memory, and moves the thread `a` that owns
      the word of key `k` to another place where it owns it. */
  ghost predicate MapOnly(s: State, s': State, a: nat, k: Key) {
    && s'.keys == s.keys && s'.heap == s.heap && s'.phoenix == s.phoenix
    && s'.threads == s.threads[a := PcOf(s', a)] && s'.mods == s.mods[k.m := ModOf(s', k.m)]
    && ModOf(s', k.m).fin == ModOf(s, k.m).fin && ModOf(s', k.m).count == ModOf(s, k.m).count
    && Winner(PcOf(s', a)) && PcOf(s', a).k == k && !HasObject(PcOf(s', a))
  }

  /** What the steps on the map leave alone. */
  lemma MapFrame(s: State, a: nat, fd: nat, throws: bool)
    requires OnMap(PcOf(s, a)) && CanStep(s, a)
    ensures MapOnly(s, MapNext(s, a, PcOf(s, a), fd, throws), a, PcOf(s, a).k)
  {
    if MapOwner(PcOf(s, a)) {
      OwnerFrame(s, a, fd, throws);
    } else {
      MapCasFrame(s, a, fd, throws);
    }
  }

  lemma MapCasFrame(s: State, a: nat, fd: nat, throws: bool)
    requires PcOf(s, a).MapCas? || PcOf(s, a).MapResurrect?
    ensures MapOnly(s, MapNext(s, a, PcOf(s, a), fd, throws), a, PcOf(s, a).k)
  {
    var m := PcOf(s, a).k.m;
    assert m in s.mods ==> s.mods[m := s.mods[m]] == s.mods;
  }

  lemma OwnerFrame(s: State, a: nat, fd: nat, throws: bool)
    requires MapOwner(PcOf(s, a)) && CanStep(s, a)
    ensures MapOnly(s, MapNext(s, a, PcOf(s, a), fd, throws), a, PcOf(s, a).k)
  {
    if PcOf(s, a).MapOpen? || PcOf(s, a).MapLock? {
      OpenFrame(s, a, fd, throws);
    }
  }

  lemma OpenFrame(s: State, a: nat, fd: nat, throws: bool)
    requires (PcOf(s, a).MapOpen? || PcOf(s, a).MapLock?) && CanStep(s, a)
    ensures MapOnly(s, MapNext(s, a, PcOf(s, a), fd, throws), a, PcOf(s, a).k)
  {
  }

  lemma MapWords(s: State, a: nat, fd: nat, throws: bool)
    requires InvWords(s) && OnMap(PcOf(s, a)) && CanStep(s, a)
    ensures InvWords(MapNext(s, a, PcOf(s, a), fd, throws))
  {
    MapFrame(s, a, fd, throws);
    WinnerMoves(s.keys, s.threads, a, PcOf(MapNext(s, a, PcOf(s, a), fd, throws), a));
  }

  /** What the steps on the object leave alone. */
  lemma ObjectFrame(s: State, a: nat, throws: bool)
    requires !OnMap(PcOf(s, a)) && !OnWord(PcOf(s, a)) && CanStep(s, a)
    ensures var s' := ObjectNext(s, a, PcOf(s, a), throws);
            var k := PcOf(s, a).k;
            && (s'.keys == s.keys || s'.keys == s.keys[k := KeyOf(s', k)])
            && KeyOf(s', k).word == KeyOf(s, k).word && KeyOf(s', k).owner == KeyOf(s, k).owner
            && s'.threads == s.threads[a := PcOf(s', a)] && s'.phoenix == s.phoenix
            && Winner(PcOf(s, a)) && Winner(PcOf(s', a)) && PcOf(s', a).k == k
  {
  }

  lemma ObjectWords(s: State, a: nat, throws: bool)
    requires InvWords(s) && !OnMap(PcOf(s, a)) && !OnWord(PcOf(s, a)) && CanStep(s, a)
    ensures InvWords(ObjectNext(s, a, PcOf(s, a), throws))
  {
    ObjectFrame(s, a, throws);
    var s' := ObjectNext(s, a, PcOf(s, a), throws);
    WinnerMoves(s.keys, s.threads, a, PcOf(s', a));
    SameWords(s.keys, s'.threads, PcOf(s, a).k, KeyOf(s', PcOf(s, a).k));
  }

  /** A change of a key that keeps its word and owner. */
  lemma SameWords(keys: map<Key, KeyState>, threads: map<nat, Pc>, k: Key, ks: KeyState)
    requires WordsOk(keys, threads)
    requires k in keys && ks.word == keys[k].word && ks.owner == keys[k].owner
    ensures WordsOk(keys[k := ks], threads)
  {
  }

  lemma FiniWords(s: State, k: Key)
    requires InvWords(s) && CanFini(s, k)
    ensures InvWords(FiniNext(s, k))
  {
  }

  lemma FinWords(s: State, m: nat)
    requires InvWords(s) && CanFinish(s, m)
    ensures InvWords(FinNext(s, m))
  {
  }

  // ---------- layer 2: map words

  ghost predicate ModFine(ms: ModState, m: nat, threads: map<nat, Pc>) {
    && (ms.mapOwner.Some? ==>
          && ms.mapOwner.value in threads && MapOwner(threads[ms.mapOwner.value])
          && threads[ms.mapOwner.value].k.m == m && ms.mapWord == Initializing)
    && ms.mapWord != Broken
    && (ms.fin != NoFin ==> ms.mapWord == Initialized)
    && (ms.fin != NoFin && !ms.fin.FinPtr? ==> Quiet(threads, m))
    && (ms.attached <==> (ms.mapWord == Initialized && ms.fin != FinMap)
                         || (ms.mapOwner.Some? && threads[ms.mapOwner.value].MapReady?))
  }

  /** A module's map word is Initialized, and the module attached, before any of its threads uses the
      map; it stays so until the finalizer that detaches the module, which runs alone. */
  ghost predicate MapsOk(mods: map<nat, ModState>, threads: map<nat, Pc>) {
    && (forall a | a in threads && MapOwner(threads[a]) ::
          threads[a].k.m in mods && mods[threads[a].k.m].mapOwner == Some(a))
    && (forall a | a in threads && UsesMap(threads[a]) ::
          threads[a].k.m in mods && mods[threads[a].k.m].mapWord == Initialized)
    && (forall m | m in mods :: ModFine(mods[m], m, threads))
  }

  ghost predicate InvMaps(s: State) {
    MapsOk(s.mods, s.threads)
  }

  lemma CallMaps(s: State, a: nat, k: Key)
    requires InvMaps(s) && CanCall(s, a, k)
    ensures InvMaps(CallNext(s, a, k))
  {
  }

  /** A step that changes no more than the word and owner of key `k` and the position of thread `a`. */
  ghost predicate WordOnly(s: State, s': State, a: nat, k: Key) {
    && s'.mods == s.mods && s'.shm == s.shm && s'.heap == s.heap && s'.phoenix == s.phoenix
    && s'.threads == s.threads[a := PcOf(s', a)] && PcOf(s', a) != Idle && PcOf(s', a).k == k
    && (s'.keys == s.keys || s'.keys == s.keys[k := KeyOf(s', k)])
    && KeyOf(s', k).ptr == KeyOf(s, k).ptr
    && KeyOf(s', k).held == KeyOf(s, k).held && KeyOf(s', k).counted == KeyOf(s, k).counted
  }

  lemma CasFrame(s: State, a: nat, k: Key)
    ensures WordOnly(s, CasNext(s, a, k), a, k)
    ensures !MapOwner(PcOf(CasNext(s, a, k), a)) && !UsesMap(PcOf(CasNext(s, a, k), a))
  {
  }

  /** What the steps on the singleton word leave alone. */
  lemma WordFrame(s: State, a: nat)
    requires OnWord(PcOf(s, a))
    ensures var s' := WordNext(s, a, PcOf(s, a));
            && WordOnly(s, s', a, PcOf(s, a).k)
            && !MapOwner(PcOf(s', a)) && (UsesMap(PcOf(s', a)) ==> PcOf(s, a).Barrier? && PcOf(s', a).Assign?)
  {
    if PcOf(s, a).FirstCas? || PcOf(s, a).SecondCas? {
      CasFrame(s, a, PcOf(s, a).k);
    }
  }

  lemma ThreadMovesMaps(mods: map<nat, ModState>, threads: map<nat, Pc>, a: nat, pc: Pc)
    requires MapsOk(mods, threads)
    requires a in threads && Inside(threads[a]) && !MapOwner(threads[a])
    requires !MapOwner(pc) && pc != Idle && pc.k == threads[a].k && (UsesMap(pc) ==> UsesMap(threads[a]))
    ensures MapsOk(mods, threads[a := pc])
  {
  }

  lemma WordMaps(s: State, a: nat)
    requires InvMaps(s) && OnWord(PcOf(s, a))
    ensures InvMaps(WordNext(s, a, PcOf(s, a)))
  {
    WordFrame(s, a);
    ThreadMovesMaps(s.mods, s.threads, a, PcOf(WordNext(s, a, PcOf(s, a)), a));
  }

  lemma OwnerMovesMaps(mods: map<nat, ModState>, threads: map<nat, Pc>, a: nat, ms: ModState, pc: Pc)
    requires MapsOk(mods, threads)
    requires a in threads && Winner(threads[a]) && Winner(pc) && pc.k == threads[a].k
    requires MapOwner(pc) ==> ms.mapOwner == Some(a)
    requires threads[a].k.m in mods ==>
               && (mods[threads[a].k.m].mapOwner.Some? && mods[threads[a].k.m].mapOwner != Some(a) ==>
                     ms.mapOwner == mods[threads[a].k.m].mapOwner)
               && (mods[threads[a].k.m].mapWord == Initialized ==> ms.mapWord == Initialized)
    requires UsesMap(pc) ==> ms.mapWord == Initialized
    requires ModFine(ms, pc.k.m, threads[a := pc])
    ensures MapsOk(mods[pc.k.m := ms], threads[a := pc])
  {
  }

  lemma MapMaps(s: State, a: nat, fd: nat, throws: bool)
    requires InvMaps(s) && OnMap(PcOf(s, a)) && CanStep(s, a)
    ensures InvMaps(MapNext(s, a, PcOf(s, a), fd, throws))
  {
    var s' := MapNext(s, a, PcOf(s, a), fd, throws);
    MapFrame(s, a, fd, throws);
    OwnerMovesMaps(s.mods, s.threads, a, ModOf(s', PcOf(s, a).k.m), PcOf(s', a));
  }

  lemma ObjectMaps(s: State, a: nat, throws: bool)
    requires InvMaps(s) && !OnMap(PcOf(s, a)) && !OnWord(PcOf(s, a)) && CanStep(s, a)
    ensures InvMaps(ObjectNext(s, a, PcOf(s, a), throws))
  {
    var s', m := ObjectNext(s, a, PcOf(s, a), throws), PcOf(s, a).k.m;
    ThreadMovesMaps(s.mods, s.threads, a, PcOf(s', a));
    if PcOf(s, a).Count? {
      CountedMaps(s.mods, s'.threads, m, ModOf(s', m));
    }
  }

  /** Only the count of a module changes. */
  lemma CountedMaps(mods: map<nat, ModState>, threads: map<nat, Pc>, m: nat, ms: ModState)
    requires MapsOk(mods, threads) && m in mods && ms == mods[m].(count := ms.count)
    ensures MapsOk(mods[m := ms], threads)
  {
  }

  lemma FiniMaps(s: State, k: Key)
    requires InvMaps(s) && CanFini(s, k) && ModOf(s, k.m).mapWord == Initialized
    ensures InvMaps(FiniNext(s, k))
  {
  }

  lemma FinMaps(s: State, m: nat)
    requires InvMaps(s) && CanFinish(s, m)
    ensures InvMaps(FinNext(s, m))
  {
  }

  // ---------- layer 3: keys

  /** What the history of a key records, and when its pointer is set, read off the real state. */
  ghost predicate KeyFine(ks: KeyState, t: nat, fin: Fin, threads: map<nat, Pc>) {
    var pc := if ks.owner.Some? && ks.owner.value in threads then threads[ks.owner.value] else Idle;
    && (ks.held <==> (ks.word == Initialized && fin != FinPtr(t) && fin != FinWord(t)) || HasObject(pc))
    && (ks.counted <==> ks.word == Initialized || fin == FinCount(t) || (HasObject(pc) && !pc.Count?))
    && (ks.ptr != 0 <==> (ks.word == Initialized && fin != FinWord(t)) || pc.Publish?)
    && (fin == FinPtr(t) || fin == FinWord(t) ==> ks.word == Initialized)
    && (fin == FinCount(t) ==> ks.word == Destroyed)
    && ((pc.Count? || pc.Barrier? || pc.Assign?) ==> pc.obj != 0)
  }

  function FinIn(mods: map<nat, ModState>, m: nat): Fin {
    if m in mods then mods[m].fin else NoFin
  }

  ghost predicate KeysOk(keys: map<Key, KeyState>, mods: map<nat, ModState>, threads: map<nat, Pc>) {
    && (forall k | k in keys :: KeyFine(keys[k], k.t, FinIn(mods, k.m), threads))
    && (forall m | m in mods && (mods[m].fin.FinPtr? || mods[m].fin.FinWord? || mods[m].fin.FinCount?) ::
          Key(m, mods[m].fin.t) in keys)
  }

  ghost predicate InvKeys(s: State) {
    KeysOk(s.keys, s.mods, s.threads)
  }

  /** A thread and its key move; no other key can tell. */
  lemma KeyMoves(keys: map<Key, KeyState>, mods: map<nat, ModState>, threads: map<nat, Pc>,
                 a: nat, pc: Pc, k: Key, ks: KeyState)
    requires WordsOk(keys, threads) && KeysOk(keys, mods, threads)
    requires a in threads && Winner(threads[a]) ==> threads[a].k == k
    requires KeyFine(ks, k.t, FinIn(mods, k.m), threads[a := pc])
    ensures KeysOk(keys[k := ks], mods, threads[a := pc])
  {
    var keys', threads' := keys[k := ks], threads[a := pc];
    forall k' | k' in keys' ensures KeyFine(keys'[k'], k'.t, FinIn(mods, k'.m), threads') {
      if k' != k {
        assert KeyFine(keys[k'], k'.t, FinIn(mods, k'.m), threads);
        assert keys[k'].owner.Some? ==> keys[k'].owner.value != a;
      }
    }
  }

  /** Only the finalizers of the modules matter to the keys. */
  lemma SameFins(keys: map<Key, KeyState>, mods: map<nat, ModState>, threads: map<nat, Pc>, mods': map<nat, ModState>)
    requires KeysOk(keys, mods, threads)
    requires forall m :: FinIn(mods', m) == FinIn(mods, m)
    ensures KeysOk(keys, mods', threads)
  {
    forall m | m in mods' && (mods'[m].fin.FinPtr? || mods'[m].fin.FinWord? || mods'[m].fin.FinCount?)
      ensures Key(m, mods'[m].fin.t) in keys
    {
      assert FinIn(mods', m) == FinIn(mods, m);
    }
  }

  /** The finalizer of `m` works on key (m, t): no other key of the module can tell. */
  lemma FinMoves(keys: map<Key, KeyState>, mods: map<nat, ModState>, threads: map<nat, Pc>,
                 m: nat, t: nat, ks: KeyState, ms: ModState)
    requires KeysOk(keys, mods, threads)
    requires forall u | FinIn(mods, m) in {FinPtr(u), FinWord(u), FinCount(u)}
                        || ms.fin in {FinPtr(u), FinWord(u), FinCount(u)} :: u == t
    requires KeyFine(ks, t, ms.fin, threads)
    ensures KeysOk(keys[Key(m, t) := ks], mods[m := ms], threads)
  {
    var keys', mods' := keys[Key(m, t) := ks], mods[m := ms];
    forall k' | k' in keys' ensures KeyFine(keys'[k'], k'.t, FinIn(mods', k'.m), threads) {
      if k' != Key(m, t) {
        assert KeyFine(keys[k'], k'.t, FinIn(mods, k'.m), threads);
      }
    }
  }

  /** The part of a finalizer that works on no key. */
  lemma FinEnds(keys: map<Key, KeyState>, mods: map<nat, ModState>, threads: map<nat, Pc>, m: nat, ms: ModState)
    requires KeysOk(keys, mods, threads)
    requires FinIn(mods, m) in {FinCheck, FinUnlink, FinMap} && ms.fin in {NoFin, FinUnlink, FinMap}
    ensures KeysOk(keys, mods[m := ms], threads)
  {
    var mods' := mods[m := ms];
    forall k | k in keys ensures KeyFine(keys[k], k.t, FinIn(mods', k.m), threads) {
      assert KeyFine(keys[k], k.t, FinIn(mods, k.m), threads);
    }
  }

  lemma CallKeys(s: State, a: nat, k: Key)
    requires InvWords(s) && InvKeys(s) && CanCall(s, a, k)
    ensures InvKeys(CallNext(s, a, k))
  {
  }

  lemma CasKeyFine(s: State, a: nat, k: Key)
    requires WordsOk(s.keys, s.threads) && KeyFine(KeyOf(s, k), k.t, FinIn(s.mods, k.m), s.threads)
    requires a in s.threads && !Winner(s.threads[a])
    ensures var s' := CasNext(s, a, k);
            KeyFine(KeyOf(s', k), k.t, FinIn(s.mods, k.m), s'.threads)
  {
  }

  lemma WordKeyFine(s: State, a: nat, k: Key)
    requires InvWords(s) && OnWord(PcOf(s, a)) && k == PcOf(s, a).k
    requires KeyFine(KeyOf(s, k), k.t, FinIn(s.mods, k.m), s.threads) && FinIn(s.mods, k.m) != FinCount(k.t)
    ensures var s' := WordNext(s, a, PcOf(s, a));
            KeyFine(KeyOf(s', k), k.t, FinIn(s.mods, k.m), s'.threads)
  {
    if PcOf(s, a).FirstCas? || PcOf(s, a).SecondCas? {
      CasKeyFine(s, a, k);
    }
  }

  lemma WordKeys(s: State, a: nat)
    requires InvWords(s) && InvMaps(s) && InvKeys(s) && OnWord(PcOf(s, a))
    ensures InvKeys(WordNext(s, a, PcOf(s, a)))
  {
    var s', k := WordNext(s, a, PcOf(s, a)), PcOf(s, a).k;
    NotCounting(s, a);
    WordFrame(s, a);
    WordKeyFine(s, a, k);
    WordKeysKept(s, s', a, k);
  }

  /** While a thread of its module is inside initialization no finalizer is past nulling the pointer. */
  lemma NotCounting(s: State, a: nat)
    requires InvMaps(s) && Inside(PcOf(s, a))
    ensures var fin := FinIn(s.mods, PcOf(s, a).k.m); fin == NoFin || fin.FinPtr?
  {
    var m := PcOf(s, a).k.m;
    assert m in s.mods ==> ModFine(s.mods[m], m, s.threads);
  }

  lemma WordKeysKept(s: State, s': State, a: nat, k: Key)
    requires InvWords(s) && InvKeys(s) && WordOnly(s, s', a, k)
    requires a in s.threads && Winner(s.threads[a]) ==> s.threads[a].k == k
    requires KeyFine(KeyOf(s', k), k.t, FinIn(s.mods, k.m), s'.threads) && (k in s.keys || k in s'.keys)
    ensures InvKeys(s')
  {
    KeyMoves(s.keys, s.mods, s.threads, a, PcOf(s', a), k, KeyOf(s', k));
    if s'.keys == s.keys {
      assert s.keys[k := KeyOf(s', k)] == s.keys;
    }
  }

  lemma MapKeys(s: State, a: nat, fd: nat, throws: bool)
    requires InvWords(s) && InvKeys(s) && OnMap(PcOf(s, a)) && CanStep(s, a)
    ensures InvKeys(MapNext(s, a, PcOf(s, a), fd, throws))
  {
    MapFrame(s, a, fd, throws);
    MapKeysKept(s, MapNext(s, a, PcOf(s, a), fd, throws), a, PcOf(s, a).k);
  }

  lemma MapKeysKept(s: State, s': State, a: nat, k: Key)
    requires InvWords(s) && InvKeys(s) && MapOnly(s, s', a, k)
    requires a in s.threads && Winner(s.threads[a]) && s.threads[a].k == k && !HasObject(s.threads[a])
    ensures InvKeys(s')
  {
    assert KeyFine(s.keys[k], k.t, FinIn(s.mods, k.m), s.threads);
    KeyMoves(s.keys, s.mods, s.threads, a, PcOf(s', a), k, s.keys[k]);
    assert s.keys[k := s.keys[k]] == s.keys;
    SameFins(s.keys, s.mods, s'.threads, s'.mods);
  }

  lemma ObjectKeys(s: State, a: nat, throws: bool)
    requires InvWords(s) && InvMaps(s) && InvKeys(s) && s.heap.next > 0
    requires !OnMap(PcOf(s, a)) && !OnWord(PcOf(s, a)) && CanStep(s, a)
    requires PcOf(s, a).Construct? ==>
               var gm := s.shm.gmems[ModOf(s, PcOf(s, a).k.m).handle];
               PcOf(s, a).k.t in gm.entries ==> gm.entries[PcOf(s, a).k.t].obj > 0
    ensures InvKeys(ObjectNext(s, a, PcOf(s, a), throws))
  {
    var s' := ObjectNext(s, a, PcOf(s, a), throws);
    var k := PcOf(s, a).k;
    ObjectFrame(s, a, throws);
    KeyMoves(s.keys, s.mods, s.threads, a, PcOf(s', a), k, KeyOf(s', k));
    SameFins(s'.keys, s.mods, s'.threads, s'.mods);
  }

  lemma FiniKeys(s: State, k: Key)
    requires InvWords(s) && InvKeys(s) && CanFini(s, k)
    ensures InvKeys(FiniNext(s, k))
  {
  }

  lemma FinKeyFine(s: State, m: nat, t: nat)
    requires InvWords(s) && CanFinish(s, m) && ModOf(s, m).fin in {FinPtr(t), FinWord(t), FinCount(t)}
    requires Key(m, t) in s.keys && KeyFine(s.keys[Key(m, t)], t, ModOf(s, m).fin, s.threads)
    ensures KeyFine(KeyOf(FinNext(s, m), Key(m, t)), t, ModOf(FinNext(s, m), m).fin, s.threads)
  {
  }

  lemma FinKeys(s: State, m: nat)
    requires InvWords(s) && InvKeys(s) && CanFinish(s, m)
    ensures InvKeys(FinNext(s, m))
  {
    var s' := FinNext(s, m);
    var f := ModOf(s, m).fin;
    if f.FinPtr? || f.FinWord? || f.FinCount? {
      FinKeyFine(s, m, f.t);
      FinMoves(s.keys, s.mods, s.threads, m, f.t, KeyOf(s', Key(m, f.t)), ModOf(s', m));
    } else {
      FinEnds(s.keys, s.mods, s.threads, m, ModOf(s', m));
    }
  }

  // ---------- layer 4: instances of the shared map

  ghost function AttachedSet(mods: map<nat, ModState>): set<nat> {
    set m | m in mods && mods[m].attached
  }

  ghost predicate GmemFine(gm: Gmem, isLinked: bool, attached: nat) {
    && (gm.fd == MarkedForRemoval <==> !isLinked)
    && gm.unlinks == (if isLinked then 0 else 1)
    && (gm.fd.Locked? ==> gm.attachCount == attached && (gm.fd.fd > 0 ==> attached > 0) && !gm.fromOldProcess)
    && (gm.fd == NotPresent ==> gm.entries == map[] && !gm.fromOldProcess)
    && (gm.fd == Stale ==> gm.fromOldProcess)
    && (gm.fd == MarkedForRemoval ==> gm.fromOldProcess || gm.entries == map[])
  }

  /** The one instance that is not marked is the linked one, it counts the attached modules, and every
      attached module is bound to it. */
  ghost predicate ShmOk(shm: Shm, mods: map<nat, ModState>) {
    && (shm.linked.Some? ==> shm.linked.value < |shm.gmems|)
    && (forall g | 0 <= g < |shm.gmems| :: GmemFine(shm.gmems[g], shm.linked == Some(g), |AttachedSet(mods)|))
    && (forall m | m in mods && mods[m].attached ::
          mods[m].handle < |shm.gmems| && shm.gmems[mods[m].handle].fd.Locked?)
  }

  ghost predicate InvShm(s: State) {
    ShmOk(s.shm, s.mods)
  }

  /** A module changes without attaching, detaching or moving to another instance. */
  lemma SameAttached(shm: Shm, mods: map<nat, ModState>, m: nat, ms: ModState)
    requires ShmOk(shm, mods)
    requires if m in mods then ms.attached == mods[m].attached && (ms.attached ==> ms.handle == mods[m].handle)
             else !ms.attached
    ensures ShmOk(shm, mods[m := ms])
  {
    assert AttachedSet(mods[m := ms]) == AttachedSet(mods);
  }

  lemma OpenShm(shm: Shm, mods: map<nat, ModState>)
    requires ShmOk(shm, mods) && shm.linked == None
    ensures ShmOk(Shm(shm.gmems + [Gmem(NotPresent, 0, map[], false, 0)], Some(|shm.gmems|)), mods)
  {
  }

  lemma AttachedToLinked(shm: Shm, mods: map<nat, ModState>)
    requires ShmOk(shm, mods)
    ensures forall m | m in mods && mods[m].attached :: shm.linked == Some(mods[m].handle)
  {
    forall m | m in mods && mods[m].attached ensures shm.linked == Some(mods[m].handle) {
      assert GmemFine(shm.gmems[mods[m].handle], shm.linked == Some(mods[m].handle), |AttachedSet(mods)|);
    }
  }

  lemma LockShm(shm: Shm, mods: map<nat, ModState>, m: nat, fd: nat)
    requires ShmOk(shm, mods) && m in mods && !mods[m].attached && mods[m].handle < |shm.gmems|
    ensures var (ok, shm') := LockFile(shm, mods[m].handle, fd);
            ShmOk(shm', mods[m := mods[m].(attached := ok)])
  {
    var g := mods[m].handle;
    assert GmemFine(shm.gmems[g], shm.linked == Some(g), |AttachedSet(mods)|);
    if LockFile(shm, g, fd).0 {
      LockAttaches(shm, mods, m, fd);
    } else {
      LockMarks(shm, mods, m, fd);
    }
  }

  lemma LockAttaches(shm: Shm, mods: map<nat, ModState>, m: nat, fd: nat)
    requires ShmOk(shm, mods) && m in mods && !mods[m].attached && mods[m].handle < |shm.gmems|
    requires LockFile(shm, mods[m].handle, fd).0
    ensures ShmOk(LockFile(shm, mods[m].handle, fd).1, mods[m := mods[m].(attached := true)])
  {
    var g, mods' := mods[m].handle, mods[m := mods[m].(attached := true)];
    var shm' := LockFile(shm, g, fd).1;
    assert AttachedSet(mods') == AttachedSet(mods) + {m};
    AttachedToLinked(shm, mods);
    assert GmemFine(shm.gmems[g], shm.linked == Some(g), |AttachedSet(mods)|);
    if shm.gmems[g].fd == NotPresent {
      assert AttachedSet(mods) == {};
    }
    forall i | 0 <= i < |shm'.gmems| ensures GmemFine(shm'.gmems[i], shm'.linked == Some(i), |AttachedSet(mods')|) {
      assert GmemFine(shm.gmems[i], shm.linked == Some(i), |AttachedSet(mods)|);
    }
  }

  lemma LockMarks(shm: Shm, mods: map<nat, ModState>, m: nat, fd: nat)
    requires ShmOk(shm, mods) && m in mods && !mods[m].attached && mods[m].handle < |shm.gmems|
    requires !LockFile(shm, mods[m].handle, fd).0
    ensures ShmOk(LockFile(shm, mods[m].handle, fd).1, mods[m := mods[m].(attached := false)])
  {
    var g, mods' := mods[m].handle, mods[m := mods[m].(attached := false)];
    var shm' := LockFile(shm, g, fd).1;
    assert AttachedSet(mods') == AttachedSet(mods);
    AttachedToLinked(shm, mods);
    assert GmemFine(shm.gmems[g], shm.linked == Some(g), |AttachedSet(mods)|);
    if shm.gmems[g].fd == Stale {
      assert AttachedSet(mods) == {};
    }
    forall i | 0 <= i < |shm'.gmems| ensures GmemFine(shm'.gmems[i], shm'.linked == Some(i), |AttachedSet(mods')|) {
      assert GmemFine(shm.gmems[i], shm.linked == Some(i), |AttachedSet(mods)|);
    }
  }

  lemma UnlinkShm(shm: Shm, mods: map<nat, ModState>, m: nat, ms: ModState)
    requires ShmOk(shm, mods) && m in mods && mods[m].attached && !ms.attached
    requires AttachedSet(mods) == {m} ==> shm.gmems[mods[m].handle].entries == map[]
    ensures ShmOk(UnlinkMap(shm, mods[m].handle), mods[m := ms])
  {
    assert AttachedSet(mods[m := ms]) == AttachedSet(mods) - {m};
    AttachedToLinked(shm, mods);
    assert GmemFine(shm.gmems[mods[m].handle], shm.linked == Some(mods[m].handle), |AttachedSet(mods)|);
    if |AttachedSet(mods)| == 1 {
      assert |AttachedSet(mods) - {m}| == 0;
      assert AttachedSet(mods) == {m};
    }
    var shm' := UnlinkMap(shm, mods[m].handle);
    forall i | 0 <= i < |shm'.gmems|
      ensures GmemFine(shm'.gmems[i], shm'.linked == Some(i), |AttachedSet(mods[m := ms])|)
    {
      assert GmemFine(shm.gmems[i], shm.linked == Some(i), |AttachedSet(mods)|);
    }
    forall m' | m' in mods[m := ms] && mods[m := ms][m'].attached
      ensures mods[m'].handle < |shm'.gmems| && shm'.gmems[mods[m'].handle].fd.Locked?
    {
      assert m' in AttachedSet(mods) - {m};
    }
  }

  lemma EntriesShm(shm: Shm, mods: map<nat, ModState>, g: nat, entries: map<nat, Entry>)
    requires ShmOk(shm, mods) && g < |shm.gmems| && shm.gmems[g].fd.Locked?
    ensures ShmOk(SetGmem(shm, g, shm.gmems[g].(entries := entries)), mods)
  {
    assert GmemFine(shm.gmems[g], shm.linked == Some(g), |AttachedSet(mods)|);
  }

  lemma MapShm(s: State, a: nat, fd: nat, throws: bool)
    requires InvMaps(s) && InvShm(s) && OnMap(PcOf(s, a)) && CanStep(s, a)
    ensures InvShm(MapNext(s, a, PcOf(s, a), fd, throws))
  {
    var pc, m := PcOf(s, a), PcOf(s, a).k.m;
    var s' := MapNext(s, a, pc, fd, throws);
    if pc.MapOpen? && !throws && s.shm.linked == None {
      OpenShm(s.shm, s.mods);
      SameAttached(s'.shm, s.mods, m, ModOf(s', m));
    } else if pc.MapLock? && !throws {
      LockShm(s.shm, s.mods, m, fd);
    } else {
      MapFrame(s, a, fd, throws);
      SameAttached(s.shm, s.mods, m, ModOf(s', m));
    }
  }

  /** A module whose map word is Initialized, or that has a finalizer, is bound to the linked instance. */
  lemma BoundToLinked(s: State, m: nat)
    requires InvMaps(s) && InvShm(s) && ModOf(s, m).mapWord == Initialized && ModOf(s, m).fin != FinMap
    ensures ModOf(s, m).handle < |s.shm.gmems| && s.shm.linked == Some(ModOf(s, m).handle)
    ensures s.shm.gmems[ModOf(s, m).handle].fd.Locked?
  {
    assert ModFine(s.mods[m], m, s.threads);
    var g := s.mods[m].handle;
    assert GmemFine(s.shm.gmems[g], s.shm.linked == Some(g), |AttachedSet(s.mods)|);
  }

  lemma ObjectShm(s: State, a: nat, throws: bool)
    requires InvMaps(s) && InvShm(s) && !OnMap(PcOf(s, a)) && !OnWord(PcOf(s, a)) && CanStep(s, a)
    ensures InvShm(ObjectNext(s, a, PcOf(s, a), throws))
  {
    var m := PcOf(s, a).k.m;
    var s' := ObjectNext(s, a, PcOf(s, a), throws);
    if PcOf(s, a).Construct? && !throws {
      var g := ModOf(s, m).handle;
      BoundToLinked(s, m);
      EntriesShm(s.shm, s.mods, g, s'.shm.gmems[g].entries);
    } else if PcOf(s, a).Count? {
      SameAttached(s.shm, s.mods, m, ModOf(s', m));
    }
  }

  lemma FiniShm(s: State, k: Key)
    requires InvMaps(s) && InvShm(s) && CanFini(s, k) && ModOf(s, k.m).mapWord == Initialized
    ensures InvShm(FiniNext(s, k))
  {
    var g := ModOf(s, k.m).handle;
    BoundToLinked(s, k.m);
    EntriesShm(s.shm, s.mods, g, FiniNext(s, k).shm.gmems[g].entries);
    SameAttached(FiniNext(s, k).shm, s.mods, k.m, ModOf(FiniNext(s, k), k.m));
  }

  lemma FinShm(s: State, m: nat)
    requires InvMaps(s) && InvShm(s) && CanFinish(s, m)
    requires ModOf(s, m).fin == FinUnlink && AttachedSet(s.mods) == {m} ==>
               s.shm.gmems[ModOf(s, m).handle].entries == map[]
    ensures InvShm(FinNext(s, m))
  {
    if ModOf(s, m).fin == FinUnlink {
      UnlinkShm(s.shm, s.mods, m, ModOf(FinNext(s, m), m));
    } else {
      SameAttached(s.shm, s.mods, m, ModOf(FinNext(s, m), m));
    }
  }
}
