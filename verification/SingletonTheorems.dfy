/** The guarantees of the singleton protocol, for every run of any number of modules, threads and types. */
module SingletonTheorems {
  import opened Options
  import opened Singleton
  import opened SingletonInvariant
  import opened SingletonObjects

  /** A module about to lock the file of its map is bound to an instance. */
  ghost predicate InvBound(s: State) {
    forall a | a in s.threads && s.threads[a].MapLock? ::
      s.threads[a].k.m in s.mods && s.mods[s.threads[a].k.m].handle < |s.shm.gmems|
  }

  ghost predicate Inv(s: State) {
    && InvWords(s) && InvMaps(s) && InvKeys(s) && InvShm(s) && InvCounts(s) && InvObjects(s) && InvBound(s)
  }

  lemma InitInv(s: State)
    requires Init(s)
    ensures Inv(s)
  {
    forall m: nat ensures CountIn(s.mods, m) == |CountedOf(s.keys, m)| {
      assert CountedOf(s.keys, m) == {};
    }
    assert AttachedSet(s.mods) == {};
  }

  // ---------- one step

  /** A key whose finalizer starts is held, and its module attached. */
  lemma FiniReady(s: State, k: Key)
    requires InvWords(s) && InvMaps(s) && InvKeys(s) && InvCounts(s)
    requires ModOf(s, k.m).fin == NoFin && Quiet(s.threads, k.m) && KeyOf(s, k).ptr != 0
    ensures k in s.keys && s.keys[k].held && s.keys[k].word == Initialized && ModOf(s, k.m).mapWord == Initialized
  {
    assert KeyFine(s.keys[k], k.t, FinIn(s.mods, k.m), s.threads);
    assert ModFine(s.mods[k.m], k.m, s.threads);
  }

  /** When the last module detaches no entry is left. */
  lemma LastDetach(s: State, m: nat)
    requires InvWords(s) && InvKeys(s) && InvCounts(s) && InvObjects(s) && CanFinish(s, m)
    requires ModOf(s, m).fin == FinUnlink && AttachedSet(s.mods) == {m}
    ensures Live(s.shm) == map[]
  {
    NothingHeld(s, m);
    assert forall k | k in s.keys && s.keys[k].held :: k.m in AttachedSet(s.mods);
    forall t ensures HoldersOf(s.keys, t) == {} {
    }
  }

  lemma WordStepInv(s: State, a: nat)
    requires Inv(s) && OnWord(PcOf(s, a))
    ensures Inv(WordNext(s, a, PcOf(s, a)))
  {
    WordWords(s, a);
    WordMaps(s, a);
    WordKeys(s, a);
    WordCounts(s, a);
    WordObjects(s, a);
    WordFrame(s, a);
  }

  /** Instances are never dropped, and only the owner of a map word rebinds the module. */
  lemma MapHandles(s: State, a: nat, fd: nat, throws: bool)
    requires OnMap(PcOf(s, a)) && CanStep(s, a) && (s.shm.linked.Some? ==> s.shm.linked.value < |s.shm.gmems|)
    ensures var s' := MapNext(s, a, PcOf(s, a), fd, throws);
            && |s'.shm.gmems| >= |s.shm.gmems|
            && (ModOf(s', PcOf(s, a).k.m).handle == ModOf(s, PcOf(s, a).k.m).handle || PcOf(s, a).MapOpen?)
            && (PcOf(s', a).MapLock? ==> ModOf(s', PcOf(s, a).k.m).handle < |s'.shm.gmems|)
  {
  }

  lemma MapBound(s: State, a: nat, fd: nat, throws: bool)
    requires InvMaps(s) && InvShm(s) && InvBound(s) && OnMap(PcOf(s, a)) && CanStep(s, a)
    ensures InvBound(MapNext(s, a, PcOf(s, a), fd, throws))
  {
    MapFrame(s, a, fd, throws);
    MapHandles(s, a, fd, throws);
  }

  lemma MapStepInv(s: State, a: nat, fd: nat, throws: bool)
    requires Inv(s) && OnMap(PcOf(s, a)) && CanStep(s, a)
    ensures Inv(MapNext(s, a, PcOf(s, a), fd, throws))
  {
    MapWords(s, a, fd, throws);
    MapMaps(s, a, fd, throws);
    MapKeys(s, a, fd, throws);
    MapShm(s, a, fd, throws);
    MapCounts(s, a, fd, throws);
    MapObjects(s, a, fd, throws);
    MapBound(s, a, fd, throws);
  }

  lemma ObjectBound(s: State, a: nat, throws: bool)
    requires InvBound(s) && !OnMap(PcOf(s, a)) && !OnWord(PcOf(s, a)) && CanStep(s, a)
    ensures InvBound(ObjectNext(s, a, PcOf(s, a), throws))
  {
  }

  lemma ObjectStepInv(s: State, a: nat, throws: bool)
    requires Inv(s) && !OnMap(PcOf(s, a)) && !OnWord(PcOf(s, a)) && CanStep(s, a)
    ensures Inv(ObjectNext(s, a, PcOf(s, a), throws))
  {
    if PcOf(s, a).Construct? {
      BoundToLinked(s, PcOf(s, a).k.m);
    }
    ObjectWords(s, a, throws);
    ObjectMaps(s, a, throws);
    ObjectKeys(s, a, throws);
    ObjectShm(s, a, throws);
    ObjectCounts(s, a, throws);
    ObjectObjects(s, a, throws);
    ObjectBound(s, a, throws);
  }

  lemma FiniStepInv(s: State, k: Key)
    requires Inv(s) && CanFini(s, k)
    ensures Inv(FiniNext(s, k))
  {
    FiniReady(s, k);
    BoundToLinked(s, k.m);
    CarriersHold(s);
    FiniWords(s, k);
    FiniMaps(s, k);
    FiniKeys(s, k);
    FiniShm(s, k);
    FiniCounts(s, k);
    FiniObjects(s, k);
  }

  lemma FinBound(s: State, m: nat)
    requires InvBound(s) && CanFinish(s, m)
    ensures InvBound(FinNext(s, m))
  {
  }

  lemma FinStepInv(s: State, m: nat)
    requires Inv(s) && CanFinish(s, m)
    ensures Inv(FinNext(s, m))
  {
    if ModOf(s, m).fin == FinUnlink {
      BoundToLinked(s, m);
      if AttachedSet(s.mods) == {m} {
        LastDetach(s, m);
      }
    }
    FinWords(s, m);
    FinMaps(s, m);
    FinKeys(s, m);
    FinShm(s, m);
    FinCounts(s, m);
    FinObjects(s, m);
    FinBound(s, m);
  }

  lemma CallStepInv(s: State, a: nat, k: Key)
    requires Inv(s) && CanCall(s, a, k)
    ensures Inv(CallNext(s, a, k))
  {
    CallWords(s, a, k);
    CallMaps(s, a, k);
    CallKeys(s, a, k);
    CallObjects(s, a, k);
  }

  lemma StepInv(s: State, l: Label)
    requires Inv(s) && Enabled(s, l)
    ensures Inv(Next(s, l))
  {
    if l.Call? {
      CallStepInv(s, l.a, l.k);
    } else if l.Fini? {
      FiniStepInv(s, l.k);
    } else if l.FinStep? {
      FinStepInv(s, l.m);
    } else if OnWord(PcOf(s, l.a)) {
      WordStepInv(s, l.a);
    } else if OnMap(PcOf(s, l.a)) {
      MapStepInv(s, l.a, l.fd, l.throws);
    } else {
      ObjectStepInv(s, l.a, l.throws);
    }
  }

  lemma {:induction false} RunInv(run: seq<State>, labels: seq<Label>, i: nat)
    requires IsRun(run, labels) && i < |run|
    ensures Inv(run[i])
  {
    if i == 0 {
      InitInv(run[0]);
    } else {
      RunInv(run, labels, i - 1);
      StepInv(run[i - 1], labels[i - 1]);
    }
  }

  /** `s` is the last state of a run. */
  ghost predicate Reaches(s: State) {
    exists run, labels :: IsRun(run, labels) && run[|run| - 1] == s
  }

  lemma ReachStep(s: State, l: Label, s': State)
    requires Reaches(s) && Enabled(s, l) && s' == Next(s, l)
    ensures Reaches(s')
  {
    var run, labels :| IsRun(run, labels) && run[|run| - 1] == s;
    var run', labels' := run + [s'], labels + [l];
    assert forall i | 0 <= i < |labels| :: labels'[i] == labels[i];
    assert IsRun(run', labels') && run'[|run'| - 1] == s';
  }

  lemma ReachedInv(s: State)
    requires Reaches(s)
    ensures Inv(s)
  {
    var run, labels :| IsRun(run, labels) && run[|run| - 1] == s;
    RunInv(run, labels, |run| - 1);
  }

  // ---------- attached modules and holders, said without history variables

  /** lock_file_logic attached module `m` and unlink_map_logic did not detach it. */
  ghost predicate ModuleAttached(s: State, m: nat) {
    || (ModOf(s, m).mapWord == Initialized && ModOf(s, m).fin != FinMap)
    || exists a :: a in s.threads && s.threads[a].MapReady? && s.threads[a].k.m == m
  }

  ghost function AttachedModules(s: State): set<nat> {
    set m | m in s.mods && ModuleAttached(s, m)
  }

  /** init_atomic_func ran for key `k` and fini_atomic_func did not run since. */
  ghost predicate Holds(s: State, k: Key) {
    || (KeyOf(s, k).word == Initialized && ModOf(s, k.m).fin != FinPtr(k.t) && ModOf(s, k.m).fin != FinWord(k.t))
    || exists a :: a in s.threads && HasObject(s.threads[a]) && s.threads[a].k == k
  }

  /** The keys of type `t`, one per module, that hold the singleton. */
  ghost function HoldingKeys(s: State, t: nat): set<Key> {
    set k | k in s.keys && k.t == t && Holds(s, k)
  }

  lemma HistoryOfModules(s: State)
    requires Inv(s)
    ensures AttachedSet(s.mods) == AttachedModules(s)
  {
    forall m | m in s.mods ensures s.mods[m].attached <==> ModuleAttached(s, m) {
      assert ModFine(s.mods[m], m, s.threads);
    }
  }

  lemma HistoryOfKeys(s: State, t: nat)
    requires Inv(s)
    ensures HoldersOf(s.keys, t) == HoldingKeys(s, t)
  {
    forall k | k in s.keys ensures s.keys[k].held <==> Holds(s, k) {
      HistoryOfKey(s, k);
    }
  }

  lemma HistoryOfKey(s: State, k: Key)
    requires InvWords(s) && InvKeys(s) && k in s.keys
    ensures s.keys[k].held <==> Holds(s, k)
  {
    assert KeyFine(s.keys[k], k.t, FinIn(s.mods, k.m), s.threads);
  }

  // ---------- the singleton words

  /** At most one thread is between winning the CAS and writing Initialized or Broken, and the word
      says Initializing meanwhile. */
  lemma OneInitializer(run: seq<State>, labels: seq<Label>, i: nat, a: nat, b: nat)
    requires IsRun(run, labels) && i < |run|
    requires Winner(PcOf(run[i], a)) && Inside(PcOf(run[i], b)) && PcOf(run[i], a).k == PcOf(run[i], b).k
    ensures Winner(PcOf(run[i], b)) ==> a == b
    ensures KeyOf(run[i], PcOf(run[i], a).k).word == Initializing
  {
    RunInv(run, labels, i);
  }

  /** A spinning thread never reads Uninitialized or Destroyed. */
  lemma SpinIsSafe(run: seq<State>, labels: seq<Label>, i: nat, a: nat)
    requires IsRun(run, labels) && i < |run| && PcOf(run[i], a).Spin?
    ensures KeyOf(run[i], PcOf(run[i], a).k).word in {Initializing, Initialized, Broken}
  {
    RunInv(run, labels, i);
  }

  predicate MayBecome(w: Word, w': Word, phoenix: bool) {
    || w' == w
    || (w == Uninitialized && w' == Initializing)
    || (w == Initializing && (w' == Initialized || w' == Broken))
    || (w == Initialized && w' == Destroyed)
    || (w == Destroyed && w' == Uninitialized && phoenix)
  }

  /** Only a Phoenix singleton is ever resurrected. */
  ghost predicate InvPhoenix(s: State) {
    forall a | a in s.threads && s.threads[a].Resurrect? :: s.threads[a].k.t in s.phoenix
  }

  lemma ThreadWordMoves(s: State, a: nat, k: Key)
    requires InvWords(s) && InvPhoenix(s) && OnWord(PcOf(s, a))
    ensures InvPhoenix(WordNext(s, a, PcOf(s, a)))
    ensures MayBecome(KeyOf(s, k).word, KeyOf(WordNext(s, a, PcOf(s, a)), k).word, k.t in s.phoenix)
  {
  }

  lemma FinWordMoves(s: State, m: nat, k: Key)
    requires InvKeys(s) && CanFinish(s, m)
    ensures MayBecome(KeyOf(s, k).word, KeyOf(FinNext(s, m), k).word, k.t in s.phoenix)
    ensures FinNext(s, m).phoenix == s.phoenix && FinNext(s, m).threads == s.threads
  {
    var f := ModOf(s, m).fin;
    if f.FinWord? {
      assert KeyFine(s.keys[Key(m, f.t)], f.t, f, s.threads);
    }
  }

  lemma OwnerWordMoves(s: State, a: nat, fd: nat, throws: bool, k: Key)
    requires InvPhoenix(s) && CanStep(s, a) && !OnWord(PcOf(s, a))
    ensures InvPhoenix(ThreadNext(s, a, fd, throws)) && ThreadNext(s, a, fd, throws).phoenix == s.phoenix
    ensures KeyOf(ThreadNext(s, a, fd, throws), k).word == KeyOf(s, k).word
  {
    if OnMap(PcOf(s, a)) {
      MapFrame(s, a, fd, throws);
    } else {
      ObjectFrame(s, a, throws);
    }
  }

  lemma WordMoves(s: State, l: Label, k: Key)
    requires InvWords(s) && InvKeys(s) && InvPhoenix(s) && Enabled(s, l)
    ensures InvPhoenix(Next(s, l)) && Next(s, l).phoenix == s.phoenix
    ensures MayBecome(KeyOf(s, k).word, KeyOf(Next(s, l), k).word, k.t in s.phoenix)
  {
    if l.FinStep? {
      FinWordMoves(s, l.m, k);
    } else if l.ThreadStep? && OnWord(PcOf(s, l.a)) {
      ThreadWordMoves(s, l.a, k);
      WordFrame(s, l.a);
    } else if l.ThreadStep? {
      OwnerWordMoves(s, l.a, l.fd, l.throws, k);
    }
  }

  lemma {:induction false} RunPhoenix(run: seq<State>, labels: seq<Label>, i: nat)
    requires IsRun(run, labels) && i < |run|
    ensures InvPhoenix(run[i]) && run[i].phoenix == run[0].phoenix
  {
    if i > 0 {
      RunPhoenix(run, labels, i - 1);
      RunInv(run, labels, i - 1);
      WordMoves(run[i - 1], labels[i - 1], Key(0, 0));
    }
  }

  /** In every run the word of every key moves only Uninitialized, Initializing, then Initialized or
      Broken, Initialized to Destroyed, and Destroyed to Uninitialized for Phoenix singletons only. */
  lemma WordTransitions(run: seq<State>, labels: seq<Label>, i: nat, k: Key)
    requires IsRun(run, labels) && i < |labels|
    ensures MayBecome(KeyOf(run[i], k).word, KeyOf(run[i + 1], k).word, k.t in run[0].phoenix)
  {
    RunPhoenix(run, labels, i);
    RunInv(run, labels, i);
    WordMoves(run[i], labels[i], k);
  }

  /** Broken is final. */
  lemma {:induction false} BrokenIsFinal(run: seq<State>, labels: seq<Label>, i: nat, j: nat, k: Key)
    requires IsRun(run, labels) && i <= j < |run| && KeyOf(run[i], k).word == Broken
    ensures KeyOf(run[j], k).word == Broken
    decreases j
  {
    if i < j {
      BrokenIsFinal(run, labels, i, j - 1, k);
      WordTransitions(run, labels, j - 1, k);
    }
  }

  /** What initialize_singleton_logic asserts at its end: a call that returns has seen Initialized or Broken, and
      the module pointer it leaves is not null exactly when it saw Initialized. */
  lemma ReturnedPointer(run: seq<State>, labels: seq<Label>, i: nat, k: Key, seen: Word)
    requires IsRun(run, labels) && i < |labels| && (labels[i].Call? || labels[i].ThreadStep?)
    requires PcOf(run[i + 1], labels[i].a) == Returned(k, seen)
    ensures seen == Initialized || seen == Broken
    ensures KeyOf(run[i + 1], k).ptr != 0 <==> seen == Initialized
  {
    RunInv(run, labels, i);
    RunInv(run, labels, i + 1);
    ReturnStep(run[i], labels[i], k, seen);
    SeenPointer(run[i + 1], k, seen);
  }

  /** A call returns with the word it leaves, while its module is not past nulling a pointer. */
  lemma ReturnStep(s: State, l: Label, k: Key, seen: Word)
    requires InvWords(s) && InvMaps(s) && Enabled(s, l) && (l.Call? || l.ThreadStep?)
    requires PcOf(Next(s, l), l.a) == Returned(k, seen)
    ensures (seen == Initialized || seen == Broken) && KeyOf(Next(s, l), k).word == seen
    ensures FinIn(Next(s, l).mods, k.m) == NoFin || FinIn(Next(s, l).mods, k.m).FinPtr?
  {
    if l.ThreadStep? {
      NotCounting(s, l.a);
      if OnWord(PcOf(s, l.a)) {
        WordFrame(s, l.a);
      } else if OnMap(PcOf(s, l.a)) {
        MapFrame(s, l.a, l.fd, l.throws);
      }
    }
  }

  lemma SeenPointer(s: State, k: Key, seen: Word)
    requires InvWords(s) && InvKeys(s) && KeyOf(s, k).word == seen && (seen == Initialized || seen == Broken)
    requires FinIn(s.mods, k.m) == NoFin || FinIn(s.mods, k.m).FinPtr?
    ensures KeyOf(s, k).ptr != 0 <==> seen == Initialized
  {
    assert KeyFine(s.keys[k], k.t, FinIn(s.mods, k.m), s.threads);
  }

  /** The pointer of key `k` is the object of the type's entry in the linked map, and that object is alive. */
  ghost predicate GoodPointer(s: State, k: Key) {
    && k.t in Live(s.shm) && KeyOf(s, k).ptr == Live(s.shm)[k.t].obj
    && KeyOf(s, k).ptr != 0 && KeyOf(s, k).ptr in s.heap.alive
  }

  /** Key `k` holds the singleton and has the object `o`: in its module's pointer, or in the hands of the
      thread that is about to write that pointer. */
  ghost predicate HoldsObject(s: State, k: Key, o: nat) {
    && Holds(s, k)
    && (KeyOf(s, k).ptr == o
        || exists a :: a in s.threads && CarriesObject(s.threads[a]) && s.threads[a].k == k && s.threads[a].obj == o)
  }

  /** A key that holds the singleton has the object of the entry, and no other. */
  lemma HolderHasObject(s: State, k: Key, o: nat)
    requires InvWords(s) && InvKeys(s) && InvObjects(s) && k in s.keys && s.keys[k].held && o != 0
    ensures k.t in Live(s.shm) && (HoldsObject(s, k, o) <==> o == Live(s.shm)[k.t].obj)
  {
    var ks := s.keys[k];
    HistoryOfKey(s, k);
    assert KeyFine(ks, k.t, FinIn(s.mods, k.m), s.threads);
    if ks.ptr == 0 {
      assert CarriesObject(s.threads[ks.owner.value]) && s.threads[ks.owner.value].k == k;
    }
  }

  /** While a word is Initialized its module's pointer is good exactly when no finalizer has nulled it and,
      if a finalizer has already released the singleton, some other module still holds the same object. */
  lemma InitializedPointer(run: seq<State>, labels: seq<Label>, i: nat, k: Key)
    requires IsRun(run, labels) && i < |run|
    requires KeyOf(run[i], k).word == Initialized
    ensures var s, fin := run[i], ModOf(run[i], k.m).fin;
            && (KeyOf(s, k).ptr != 0 <==> fin != FinWord(k.t))
            && (GoodPointer(s, k) <==>
                  && fin != FinWord(k.t)
                  && (fin == FinPtr(k.t) ==>
                        exists k' :: k' in HoldingKeys(s, k.t) && HoldsObject(s, k', KeyOf(s, k).ptr)))
  {
    RunInv(run, labels, i);
    PointerGood(run[i], k);
  }

  lemma PointerGood(s: State, k: Key)
    requires Inv(s) && KeyOf(s, k).word == Initialized
    ensures KeyOf(s, k).ptr != 0 <==> ModOf(s, k.m).fin != FinWord(k.t)
    ensures GoodPointer(s, k) <==>
              && ModOf(s, k.m).fin != FinWord(k.t)
              && (ModOf(s, k.m).fin == FinPtr(k.t) ==>
                    exists k' :: k' in HoldingKeys(s, k.t) && HoldsObject(s, k', KeyOf(s, k).ptr))
  {
    assert KeyFine(s.keys[k], k.t, FinIn(s.mods, k.m), s.threads);
    HistoryOfKeys(s, k.t);
    if ModOf(s, k.m).fin == FinPtr(k.t) {
      ReleasedPointer(s, k);
    }
  }

  /** The pointer of a released key is good exactly when some holder has the same object. */
  lemma ReleasedPointer(s: State, k: Key)
    requires Inv(s) && KeyOf(s, k).ptr != 0
    ensures GoodPointer(s, k) <==>
            exists k' :: k' in HoldingKeys(s, k.t) && HoldsObject(s, k', KeyOf(s, k).ptr)
  {
    var o := KeyOf(s, k).ptr;
    HistoryOfKeys(s, k.t);
    if GoodPointer(s, k) {
      assert HoldersOf(s.keys, k.t) != {};
      var k' :| k' in HoldersOf(s.keys, k.t);
      HolderHasObject(s, k', o);
      assert k' in HoldingKeys(s, k.t) && HoldsObject(s, k', o);
    }
    if k' :| k' in HoldingKeys(s, k.t) && HoldsObject(s, k', o) {
      assert k' in HoldersOf(s.keys, k.t);
      HolderHasObject(s, k', o);
    }
  }

  /** A key that can be released is held in the linked instance, with the pointer of its entry. */
  lemma ReleaseReady(s: State, k: Key)
    requires Inv(s) && CanFini(s, k)
    ensures k in s.keys && s.keys[k].held && s.keys[k].word == Initialized && OnLinked(s, k.m) && GoodPointer(s, k)
    ensures Live(s.shm)[k.t].refs == 1 <==> HoldingKeys(s, k.t) == {k}
    ensures Live(s.shm)[k.t].refs > 0
  {
    FiniReady(s, k);
    BoundToLinked(s, k.m);
    HistoryOfKeys(s, k.t);
    LeaveRefs(Live(s.shm), s.keys, k, s.keys[k].(held := false));
  }

  /** The first of two holders releases: its pointer stays good, and the second can still release. */
  lemma FirstRelease(s: State, k1: Key, k2: Key)
    requires CanFini(s, k1) && CanFini(s, k2) && k1.m != k2.m && k1.t == k2.t
    requires k1 in s.keys && OnLinked(s, k1.m) && OnLinked(s, k2.m) && GoodPointer(s, k1)
    requires Live(s.shm)[k1.t].refs > 1 && s.keys[k1].word == Initialized
    ensures var s1 := FiniNext(s, k1);
            && CanFini(s1, k2) && s1.heap == s.heap && KeyOf(s1, k1).word == Initialized
            && ModOf(s1, k1.m).fin == FinPtr(k1.t) && GoodPointer(s1, k1)
            && KeyOf(s1, k1).ptr == KeyOf(s, k1).ptr && KeyOf(s1, k2) == KeyOf(s, k2)
  {
    FiniFrame(s, k1);
  }

  /** A release takes the key, and only it, from the holders. */
  lemma OneHolderLess(s: State, k: Key)
    requires Inv(s) && CanFini(s, k)
    ensures HoldingKeys(FiniNext(s, k), k.t) == HoldingKeys(s, k.t) - {k}
  {
    ReleaseReady(s, k);
    FiniFrame(s, k);
    HoldersAfter(s.keys, k, s.keys[k].(held := false), k.t);
    HistoryOfKeys(s, k.t);
    FiniStepInv(s, k);
    HistoryOfKeys(FiniNext(s, k), k.t);
  }

  /** The last holder releases: the object is deleted, and nothing else of other keys and modules changes. */
  lemma LastRelease(s: State, k: Key)
    requires CanFini(s, k) && k in s.keys && OnLinked(s, k.m) && GoodPointer(s, k) && Live(s.shm)[k.t].refs == 1
    ensures var s' := FiniNext(s, k);
            && KeyOf(s, k).ptr !in s'.heap.alive && k.t !in Live(s'.shm)
            && (forall k' | k' != k :: KeyOf(s', k') == KeyOf(s, k'))
            && (forall m | m != k.m :: ModOf(s', m) == ModOf(s, m))
  {
    FiniFrame(s, k);
  }

  /** What the assertions inside the functors demand: a thread inside initialization can always take
      its next step, and a pointer that finalization tests non-null has a counted entry to release. */
  lemma FunctorsNeverFail(run: seq<State>, labels: seq<Label>, i: nat, a: nat, k: Key)
    requires IsRun(run, labels) && i < |run|
    ensures Inside(PcOf(run[i], a)) ==> CanStep(run[i], a)
    ensures ModOf(run[i], k.m).fin == NoFin && Quiet(run[i].threads, k.m) && KeyOf(run[i], k).ptr != 0 ==>
              && CanFini(run[i], k)
              && run[i].shm.gmems[ModOf(run[i], k.m).handle].entries[k.t].refs > 0
              && run[i].shm.gmems[ModOf(run[i], k.m).handle].entries[k.t].obj == KeyOf(run[i], k).ptr
  {
    var s := run[i];
    RunInv(run, labels, i);
    if PcOf(s, a).Construct? {
      BoundToLinked(s, PcOf(s, a).k.m);
    }
    if ModOf(s, k.m).fin == NoFin && Quiet(s.threads, k.m) && KeyOf(s, k).ptr != 0 {
      FiniReady(s, k);
      BoundToLinked(s, k.m);
    }
  }

  // ---------- the instances of the shared map

  /** Every attached module is bound to the linked instance, whose count is the number of attached
      modules; an instance is linked until it is unlinked, at most once. */
  lemma AttachCount(run: seq<State>, labels: seq<Label>, i: nat, g: nat)
    requires IsRun(run, labels) && i < |run| && g < |run[i].shm.gmems|
    ensures var s := run[i];
            && (forall m | m in AttachedModules(s) ::
                  && s.shm.linked == Some(s.mods[m].handle)
                  && s.mods[m].handle < |s.shm.gmems| && s.shm.gmems[s.mods[m].handle].fd.Locked?)
            && (s.shm.gmems[g].fd.Locked? ==> s.shm.gmems[g].attachCount == |AttachedModules(s)|)
            && s.shm.gmems[g].unlinks == (if s.shm.linked == Some(g) then 0 else 1)
            && (s.shm.gmems[g].fd == MarkedForRemoval <==> s.shm.linked != Some(g))
  {
    var s := run[i];
    RunInv(run, labels, i);
    HistoryOfModules(s);
    AttachedToLinked(s.shm, s.mods);
    assert GmemFine(s.shm.gmems[g], s.shm.linked == Some(g), |AttachedSet(s.mods)|);
  }

  /** A step that unlinks an instance of this process is the detaching of its last module; and the
      detaching of the last module unlinks the instance exactly when its lock file has a positive
      descriptor (descriptor zero is treated as no lock file). */
  lemma UnlinkedByLast(run: seq<State>, labels: seq<Label>, i: nat, g: nat)
    requires IsRun(run, labels) && i < |labels| && g < |run[i].shm.gmems|
    ensures g < |run[i + 1].shm.gmems|
    ensures run[i].shm.gmems[g].unlinks == 0 && run[i + 1].shm.gmems[g].unlinks == 1
            && !run[i].shm.gmems[g].fromOldProcess ==>
              && labels[i].FinStep? && ModOf(run[i], labels[i].m).fin == FinUnlink
              && AttachedModules(run[i]) == {labels[i].m} && AttachedModules(run[i + 1]) == {}
    ensures labels[i].FinStep? && ModOf(run[i], labels[i].m).fin == FinUnlink
            && AttachedModules(run[i]) == {labels[i].m}
            && run[i].shm.linked == Some(g) ==>
              run[i].shm.gmems[g].fd.Locked? && (run[i + 1].shm.linked == None <==> run[i].shm.gmems[g].fd.fd > 0)
  {
    var s, s', l := run[i], run[i + 1], labels[i];
    RunInv(run, labels, i);
    RunInv(run, labels, i + 1);
    HistoryOfModules(s);
    HistoryOfModules(s');
    UnlinkStep(s, l, g);
  }

  /** An instance whose lock file got descriptor zero is never unlinked, whoever detaches. */
  lemma {:induction false} ZeroStaysLinked(run: seq<State>, labels: seq<Label>, i: nat, j: nat, g: nat)
    requires IsRun(run, labels) && i <= j < |run|
    requires g < |run[i].shm.gmems| && run[i].shm.gmems[g].fd == Locked(0)
    ensures g < |run[j].shm.gmems| && run[j].shm.gmems[g].fd == Locked(0) && run[j].shm.linked == Some(g)
    decreases j
  {
    if i < j {
      ZeroStaysLinked(run, labels, i, j - 1, g);
      ZeroRunStep(run, labels, j - 1, g);
    }
    RunInv(run, labels, j);
    assert GmemFine(run[j].shm.gmems[g], run[j].shm.linked == Some(g), |AttachedSet(run[j].mods)|);
  }

  lemma ZeroRunStep(run: seq<State>, labels: seq<Label>, i: nat, g: nat)
    requires IsRun(run, labels) && i < |labels| && g < |run[i].shm.gmems| && run[i].shm.gmems[g].fd == Locked(0)
    ensures g < |run[i + 1].shm.gmems| && run[i + 1].shm.gmems[g].fd == Locked(0)
  {
    RunInv(run, labels, i);
    ZeroStep(run[i], labels[i], g);
  }

  lemma ZeroStep(s: State, l: Label, g: nat)
    requires InvShm(s) && Enabled(s, l) && g < |s.shm.gmems| && s.shm.gmems[g].fd == Locked(0)
    ensures g < |Next(s, l).shm.gmems| && Next(s, l).shm.gmems[g].fd == Locked(0)
  {
    assert GmemFine(s.shm.gmems[g], s.shm.linked == Some(g), |AttachedSet(s.mods)|);
    if l.ThreadStep? {
      ThreadShm(s, l.a, l.fd, l.throws);
    }
  }

  /** What a thread step may do to the shared memory: open a new instance, lock the file of one, or change the
      entries of one. */
  lemma ThreadShm(s: State, a: nat, fd: nat, throws: bool)
    requires CanStep(s, a)
    ensures var shm, shm' := s.shm, ThreadNext(s, a, fd, throws).shm;
            || shm' == shm
            || (shm.linked == None
                && shm' == Shm(shm.gmems + [Gmem(NotPresent, 0, map[], false, 0)], Some(|shm.gmems|)))
            || (exists g: nat :: g < |shm.gmems| && shm' == LockFile(shm, g, fd).1)
            || (exists g: nat, entries ::
                  g < |shm.gmems| && shm' == SetGmem(shm, g, shm.gmems[g].(entries := entries)))
  {
    var m := PcOf(s, a).k.m;
    if OnWord(PcOf(s, a)) {
      WordFrame(s, a);
    } else if PcOf(s, a).MapLock? && !throws {
      var g := ModOf(s, m).handle;
      assert ThreadNext(s, a, fd, throws).shm == LockFile(s.shm, g, fd).1;
    } else if PcOf(s, a).Construct? && !throws {
      var g := ModOf(s, m).handle;
      var entries := ThreadNext(s, a, fd, throws).shm.gmems[g].entries;
      assert ThreadNext(s, a, fd, throws).shm == SetGmem(s.shm, g, s.shm.gmems[g].(entries := entries));
    }
  }

  /** Instance `g` is not newly unlinked unless it is of an older process, and keeps its mark. */
  predicate LinkKept(shm: Shm, shm': Shm, g: nat)
    requires g < |shm.gmems|
  {
    && g < |shm'.gmems|
    && (shm'.gmems[g].unlinks == shm.gmems[g].unlinks || shm.gmems[g].fromOldProcess)
    && (shm.gmems[g].fd == MarkedForRemoval ==> shm'.gmems[g].fd == MarkedForRemoval)
  }

  lemma LockLinks(s: State, h: nat, fd: nat, g: nat)
    requires InvShm(s) && h < |s.shm.gmems| && g < |s.shm.gmems|
    ensures LinkKept(s.shm, LockFile(s.shm, h, fd).1, g)
  {
    assert GmemFine(s.shm.gmems[g], s.shm.linked == Some(g), |AttachedSet(s.mods)|);
    assert GmemFine(s.shm.gmems[h], s.shm.linked == Some(h), |AttachedSet(s.mods)|);
  }

  /** A step of a thread unlinks no instance of this process, and no mark is ever taken back. */
  lemma ThreadLinks(s: State, a: nat, fd: nat, throws: bool, g: nat)
    requires InvShm(s) && CanStep(s, a) && g < |s.shm.gmems|
    ensures LinkKept(s.shm, ThreadNext(s, a, fd, throws).shm, g)
  {
    ThreadShm(s, a, fd, throws);
    if h: nat :| h < |s.shm.gmems| && ThreadNext(s, a, fd, throws).shm == LockFile(s.shm, h, fd).1 {
      LockLinks(s, h, fd, g);
    }
  }

  ghost predicate Unlinking(s: State, l: Label) {
    l.FinStep? && ModOf(s, l.m).fin == FinUnlink
  }

  /** Only the unlink of a detaching module can unlink an instance of this process. */
  lemma LinksKept(s: State, l: Label, g: nat)
    requires InvShm(s) && Enabled(s, l) && g < |s.shm.gmems| && !Unlinking(s, l)
    ensures LinkKept(s.shm, Next(s, l).shm, g)
  {
    if l.ThreadStep? {
      ThreadLinks(s, l.a, l.fd, l.throws, g);
    }
  }

  /** A detaching module leaves the attached ones; it unlinks the instance exactly when it was the last and
      the lock file has a positive descriptor. */
  lemma DetachStep(s: State, m: nat, g: nat)
    requires InvMaps(s) && InvShm(s) && CanFinish(s, m) && ModOf(s, m).fin == FinUnlink && g < |s.shm.gmems|
    ensures var shm := FinNext(s, m).shm;
            && g < |shm.gmems| && s.shm.linked == Some(ModOf(s, m).handle)
            && (s.shm.linked == Some(g) ==>
                  && s.shm.gmems[g].fd.Locked? && s.shm.gmems[g].unlinks == 0
                  && (shm.linked == None <==> |AttachedSet(s.mods)| == 1 && s.shm.gmems[g].fd.fd > 0)
                  && (shm.gmems[g].unlinks == 1 <==> shm.linked == None))
            && (s.shm.linked != Some(g) ==> shm.gmems[g] == s.shm.gmems[g])
  {
    assert GmemFine(s.shm.gmems[g], s.shm.linked == Some(g), |AttachedSet(s.mods)|);
    BoundToLinked(s, m);
  }

  lemma DetachSet(s: State, m: nat)
    requires InvMaps(s) && InvShm(s) && CanFinish(s, m) && ModOf(s, m).fin == FinUnlink
    ensures m in AttachedSet(s.mods) && AttachedSet(FinNext(s, m).mods) == AttachedSet(s.mods) - {m}
    ensures |AttachedSet(s.mods)| == 1 <==> AttachedSet(s.mods) == {m}
  {
    assert ModFine(s.mods[m], m, s.threads);
    assert m in AttachedSet(s.mods);
    OnlyOne(AttachedSet(s.mods), m);
  }

  lemma OnlyOne(modules: set<nat>, m: nat)
    requires m in modules
    ensures |modules| == 1 <==> modules == {m}
  {
    var rest := modules - {m};
    assert modules == rest + {m};
    assert |modules| == |rest| + 1;
    assert |rest| == 0 <==> rest == {};
  }

  /** The step lemma behind UnlinkedByLast, with the history variable for the attached modules. */
  lemma UnlinkStep(s: State, l: Label, g: nat)
    requires InvMaps(s) && InvShm(s) && Enabled(s, l) && g < |s.shm.gmems|
    ensures g < |Next(s, l).shm.gmems|
    ensures s.shm.gmems[g].unlinks == 0 && Next(s, l).shm.gmems[g].unlinks == 1 && !s.shm.gmems[g].fromOldProcess ==>
              Unlinking(s, l) && AttachedSet(s.mods) == {l.m} && AttachedSet(Next(s, l).mods) == {}
    ensures Unlinking(s, l) && AttachedSet(s.mods) == {l.m} && s.shm.linked == Some(g) ==>
              s.shm.gmems[g].fd.Locked? && (Next(s, l).shm.linked == None <==> s.shm.gmems[g].fd.fd > 0)
  {
    if Unlinking(s, l) {
      DetachStep(s, l.m, g);
      DetachSet(s, l.m);
    } else {
      LinksKept(s, l, g);
    }
  }

  lemma MarkIsFinal(s: State, l: Label, g: nat)
    requires InvMaps(s) && InvShm(s) && Enabled(s, l) && g < |s.shm.gmems| && s.shm.gmems[g].fd == MarkedForRemoval
    ensures g < |Next(s, l).shm.gmems| && Next(s, l).shm.gmems[g].fd == MarkedForRemoval
  {
    if Unlinking(s, l) {
      DetachStep(s, l.m, g);
    } else {
      LinksKept(s, l, g);
    }
  }

  lemma {:induction false} MarkedForEver(run: seq<State>, labels: seq<Label>, i: nat, j: nat, g: nat)
    requires IsRun(run, labels) && i <= j < |run|
    requires g < |run[i].shm.gmems| && run[i].shm.gmems[g].fd == MarkedForRemoval
    ensures g < |run[j].shm.gmems| && run[j].shm.gmems[g].fd == MarkedForRemoval
    decreases j
  {
    if i < j {
      MarkedForEver(run, labels, i, j - 1, g);
      MarkRunStep(run, labels, j - 1, g);
    }
  }

  lemma MarkRunStep(run: seq<State>, labels: seq<Label>, i: nat, g: nat)
    requires IsRun(run, labels) && i < |labels|
    requires g < |run[i].shm.gmems| && run[i].shm.gmems[g].fd == MarkedForRemoval
    ensures g < |run[i + 1].shm.gmems| && run[i + 1].shm.gmems[g].fd == MarkedForRemoval
  {
    RunInv(run, labels, i);
    MarkIsFinal(run[i], labels[i], g);
  }

  /** Once an instance is unlinked it stays marked, no module is ever attached to it again, and a module
      still bound to it is told by lock_file_logic to retry with another instance. */
  lemma NoAttachAfterUnlink(run: seq<State>, labels: seq<Label>, i: nat, j: nat, g: nat)
    requires IsRun(run, labels) && i <= j < |run|
    requires g < |run[i].shm.gmems| && run[i].shm.gmems[g].unlinks == 1
    ensures g < |run[j].shm.gmems| && run[j].shm.gmems[g].fd == MarkedForRemoval && run[j].shm.gmems[g].unlinks == 1
    ensures forall m | m in AttachedModules(run[j]) :: run[j].mods[m].handle != g
    ensures forall fd :: LockFile(run[j].shm, g, fd) == (false, run[j].shm)
  {
    AttachCount(run, labels, i, g);
    MarkedForEver(run, labels, i, j, g);
    AttachCount(run, labels, j, g);
  }

  // ---------- the singleton objects

  /** A type has an entry exactly when its reference count is positive, and the count is the number of
      modules attached to the singleton and not yet finalized. */
  lemma ReferenceCount(run: seq<State>, labels: seq<Label>, i: nat, t: nat)
    requires IsRun(run, labels) && i < |run|
    ensures t in Live(run[i].shm) <==> HoldingKeys(run[i], t) != {}
    ensures t in Live(run[i].shm) ==> Live(run[i].shm)[t].refs == |HoldingKeys(run[i], t)|
  {
    RunInv(run, labels, i);
    HistoryOfKeys(run[i], t);
    if HoldersOf(run[i].keys, t) != {} {
      var k :| k in HoldersOf(run[i].keys, t);
    }
  }

  /** The objects alive are exactly those of the entries, one per type. */
  lemma OneObjectPerType(run: seq<State>, labels: seq<Label>, i: nat)
    requires IsRun(run, labels) && i < |run|
    ensures run[i].heap.alive == Objects(Live(run[i].shm))
    ensures forall t, u | t in Live(run[i].shm) && u in Live(run[i].shm) && t != u ::
              Live(run[i].shm)[t].obj != Live(run[i].shm)[u].obj
  {
    RunInv(run, labels, i);
  }

  /** An object is deleted only by the finalizer of the last module holding its type; right after it, the
      module's word is still Initialized and its pointer still that of the deleted object. */
  lemma DeletedByLast(run: seq<State>, labels: seq<Label>, i: nat, o: nat)
    requires IsRun(run, labels) && i < |labels|
    requires o in run[i].heap.alive && o !in run[i + 1].heap.alive
    ensures labels[i].Fini? && HoldingKeys(run[i], labels[i].k.t) == {labels[i].k}
    ensures o == KeyOf(run[i], labels[i].k).ptr
    ensures HoldingKeys(run[i + 1], labels[i].k.t) == {} && labels[i].k.t !in Live(run[i + 1].shm)
    ensures KeyOf(run[i + 1], labels[i].k).word == Initialized && KeyOf(run[i + 1], labels[i].k).ptr == o
  {
    var l := labels[i];
    DeletedInRun(run, labels, i, o);
    ReferenceCount(run, labels, i + 1, l.k.t);
  }

  lemma DeletedInRun(run: seq<State>, labels: seq<Label>, i: nat, o: nat)
    requires IsRun(run, labels) && i < |labels|
    requires o in run[i].heap.alive && o !in run[i + 1].heap.alive
    ensures labels[i].Fini? && HoldingKeys(run[i], labels[i].k.t) == {labels[i].k}
    ensures o == KeyOf(run[i], labels[i].k).ptr
    ensures labels[i].k.t !in Live(run[i + 1].shm)
    ensures KeyOf(run[i + 1], labels[i].k).word == Initialized && KeyOf(run[i + 1], labels[i].k).ptr == o
  {
    RunInv(run, labels, i);
    DeletedBy(run[i], labels[i], o);
  }

  lemma DeletedBy(s: State, l: Label, o: nat)
    requires Inv(s) && Enabled(s, l) && o in s.heap.alive && o !in Next(s, l).heap.alive
    ensures l.Fini? && HoldingKeys(s, l.k.t) == {l.k} && o == KeyOf(s, l.k).ptr
    ensures l.k.t !in Live(Next(s, l).shm)
    ensures KeyOf(Next(s, l), l.k).word == Initialized && KeyOf(Next(s, l), l.k).ptr == o
  {
    DeleteStep(s, l, o);
    ReleaseReady(s, l.k);
    FiniFrame(s, l.k);
  }

  lemma DeleteStep(s: State, l: Label, o: nat)
    requires Enabled(s, l) && o in s.heap.alive && o !in Next(s, l).heap.alive
    ensures l.Fini? && s.shm.gmems[ModOf(s, l.k.m).handle].entries[l.k.t] == Entry(o, 1)
  {
    if l.ThreadStep? && OnWord(PcOf(s, l.a)) {
      WordFrame(s, l.a);
    } else if l.ThreadStep? && OnMap(PcOf(s, l.a)) {
      MapFrame(s, l.a, l.fd, l.throws);
    }
  }

  /** An object is created only by init_atomic_func of a thread that found no entry for its type, when no
      module held the type; that thread has the object in its hands afterwards. */
  lemma CreatedByFirst(run: seq<State>, labels: seq<Label>, i: nat, o: nat)
    requires IsRun(run, labels) && i < |labels|
    requires o !in run[i].heap.alive && o in run[i + 1].heap.alive
    ensures labels[i].ThreadStep? && PcOf(run[i], labels[i].a).Construct?
    ensures var k := PcOf(run[i], labels[i].a).k;
            && k.t !in Live(run[i].shm) && HoldingKeys(run[i], k.t) == {}
            && PcOf(run[i + 1], labels[i].a) == Count(k, o)
            && k.t in Live(run[i + 1].shm) && Live(run[i + 1].shm)[k.t] == Entry(o, 1)
  {
    RunInv(run, labels, i);
    CreateStep(run[i], labels[i], o);
    ReferenceCount(run, labels, i, PcOf(run[i], labels[i].a).k.t);
  }

  lemma CreateStep(s: State, l: Label, o: nat)
    requires InvMaps(s) && InvShm(s) && Enabled(s, l) && o !in s.heap.alive && o in Next(s, l).heap.alive
    ensures l.ThreadStep? && PcOf(s, l.a).Construct? && PcOf(s, l.a).k.t !in Live(s.shm)
    ensures PcOf(Next(s, l), l.a) == Count(PcOf(s, l.a).k, o)
    ensures PcOf(s, l.a).k.t in Live(Next(s, l).shm) && Live(Next(s, l).shm)[PcOf(s, l.a).k.t] == Entry(o, 1)
  {
    OnlyConstructCreates(s, l, o);
    BoundToLinked(s, PcOf(s, l.a).k.m);
    ConstructFrame(s, l.a, PcOf(s, l.a).k);
  }

  lemma OnlyConstructCreates(s: State, l: Label, o: nat)
    requires Enabled(s, l) && o !in s.heap.alive && o in Next(s, l).heap.alive
    ensures l.ThreadStep? && PcOf(s, l.a).Construct? && Next(s, l) == ConstructNext(s, l.a, PcOf(s, l.a).k)
  {
    if l.ThreadStep? && OnWord(PcOf(s, l.a)) {
      WordFrame(s, l.a);
    } else if l.ThreadStep? && OnMap(PcOf(s, l.a)) {
      MapFrame(s, l.a, l.fd, l.throws);
    }
  }
}
