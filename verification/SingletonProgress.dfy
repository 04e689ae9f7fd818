/** What the singleton protocol achieves: why a call throws, that a call left alone ends with a good pointer, that
    a finalizer completes, and where the protocol gets stuck. */
module SingletonProgress {
  import opened Options
  import opened Singleton
  import opened SingletonInvariant
  import opened SingletonObjects
  import opened SingletonTheorems

  // ---------- why a call throws

  /** A thread gives up its initialization only because something threw. */
  lemma FailNeedsThrow(s: State, a: nat, fd: nat, throws: bool)
    requires CanStep(s, a) && !PcOf(s, a).Fail? && PcOf(ThreadNext(s, a, fd, throws), a).Fail?
    ensures throws
  {
  }

  /** A thread that has resurrected a singleton does not find it destroyed again. */
  ghost predicate InvSecond(s: State) {
    forall a | a in s.threads && s.threads[a].SecondCas? :: KeyOf(s, s.threads[a].k).word != Destroyed
  }

  lemma WordSecond(s: State, a: nat)
    requires InvSecond(s) && OnWord(PcOf(s, a))
    ensures InvSecond(WordNext(s, a, PcOf(s, a)))
  {
    var s' := WordNext(s, a, PcOf(s, a));
    forall b | b in s'.threads && s'.threads[b].SecondCas? ensures KeyOf(s', s'.threads[b].k).word != Destroyed {
      if b != a {
        assert KeyOf(s, s.threads[b].k).word != Destroyed;
      }
    }
  }

  lemma StepSecond(s: State, l: Label)
    requires InvSecond(s) && Enabled(s, l)
    ensures InvSecond(Next(s, l))
  {
    if l.ThreadStep? {
      if OnWord(PcOf(s, l.a)) {
        WordSecond(s, l.a);
      } else if OnMap(PcOf(s, l.a)) {
        MapFrame(s, l.a, l.fd, l.throws);
      } else {
        ObjectFrame(s, l.a, l.throws);
      }
    }
  }

  lemma {:induction false} RunSecond(run: seq<State>, labels: seq<Label>, i: nat)
    requires IsRun(run, labels) && i < |run|
    ensures InvSecond(run[i])
  {
    if i > 0 {
      RunSecond(run, labels, i - 1);
      StepSecond(run[i - 1], labels[i - 1]);
    }
  }

  /** A call throws because its own initialization failed, and then the word is Broken, or because it found the
      word Broken, or found a singleton destroyed that is no Phoenix. */
  lemma ThrewBecause(run: seq<State>, labels: seq<Label>, i: nat, k: Key)
    requires IsRun(run, labels) && i < |labels| && labels[i].ThreadStep? && Inside(PcOf(run[i], labels[i].a))
    requires PcOf(run[i + 1], labels[i].a) == Threw(k)
    ensures || (PcOf(run[i], labels[i].a) == Fail(k) && KeyOf(run[i + 1], k).word == Broken)
            || KeyOf(run[i], k).word == Broken
            || (KeyOf(run[i], k).word == Destroyed && k.t !in run[i].phoenix)
  {
    RunSecond(run, labels, i);
    ThrewStep(run[i], labels[i], k);
  }

  lemma ThrewStep(s: State, l: Label, k: Key)
    requires InvSecond(s) && Enabled(s, l) && l.ThreadStep? && PcOf(Next(s, l), l.a) == Threw(k)
    ensures || (PcOf(s, l.a) == Fail(k) && KeyOf(Next(s, l), k).word == Broken)
            || KeyOf(s, k).word == Broken
            || (KeyOf(s, k).word == Destroyed && k.t !in s.phoenix)
  {
    if OnMap(PcOf(s, l.a)) {
      MapFrame(s, l.a, l.fd, l.throws);
    }
  }

  // ---------- a call left alone ends

  /** No other thread is working on the module's map. */
  predicate MapFree(s: State, m: nat) {
    ModOf(s, m).mapWord != Initializing
  }

  /** Nothing that other threads do stands in the way of thread `a`: the singleton exists, or it can be initialized
      by `a`. */
  predicate Unobstructed(s: State, a: nat) {
    var pc := PcOf(s, a);
    if pc.FirstCas? || pc.Resurrect? || pc.SecondCas? then
      || KeyOf(s, pc.k).word == Initialized
      || (KeyOf(s, pc.k).word == Uninitialized && MapFree(s, pc.k.m))
      || (KeyOf(s, pc.k).word == Destroyed && pc.k.t in s.phoenix && !pc.SecondCas? && MapFree(s, pc.k.m))
    else if pc.Spin? then KeyOf(s, pc.k).word == Initialized
    else if pc.MapCas? || pc.MapResurrect? then MapFree(s, pc.k.m)
    else Inside(pc) && !pc.Fail?
  }

  /** Six more steps are needed while the linked instance is one of an older process. */
  function StaleSteps(shm: Shm): nat {
    if shm.linked.Some? && shm.linked.value < |shm.gmems| && shm.gmems[shm.linked.value].fd == Stale then 6 else 0
  }

  function MapRank(s: State, pc: Pc): nat
    requires OnMap(pc)
  {
    var ms, more := ModOf(s, pc.k.m), StaleSteps(s.shm);
    if pc.MapReady? then 6
    else if pc.MapLock? then
      if ms.handle < |s.shm.gmems| && s.shm.gmems[ms.handle].fd == MarkedForRemoval then 13 + more
      else if ms.handle < |s.shm.gmems| && s.shm.gmems[ms.handle].fd == Stale then 13 else 7
    else if pc.MapOpen? then 8 + more
    else if pc.MapRetry? then 12 + more
    else if pc.MapCas? then
      if ms.mapWord == Initialized then 6 else if ms.mapWord == Uninitialized then 9 + more else 11 + more
    else if ms.mapWord == Initialized then 7 else 10 + more
  }

  function Rank(s: State, a: nat): nat {
    var pc := PcOf(s, a);
    if OnMap(pc) then MapRank(s, pc)
    else if pc.FirstCas? then 40
    else if pc.Resurrect? then 39
    else if pc.SecondCas? then 38
    else if pc.Construct? then 5
    else if pc.Count? then 4
    else if pc.Barrier? then 3
    else if pc.Assign? then 2 else 1
  }

  /** Step `i` of `states` is one of thread `a` in which nothing throws. */
  ghost predicate StepAt(states: seq<State>, i: nat, a: nat, fd: nat)
    requires i + 1 < |states|
  {
    CanStep(states[i], a) && states[i + 1] == ThreadNext(states[i], a, fd, false)
  }

  ghost predicate Chain(states: seq<State>, a: nat, fd: nat) {
    forall i: nat | i + 1 < |states| :: StepAt(states, i, a, fd)
  }

  /** From `s`, thread `a` alone gets to `t` in `n` steps. */
  ghost predicate Alone(s: State, t: State, a: nat, fd: nat, n: nat) {
    exists states: seq<State> :: |states| == n + 1 && states[0] == s && states[n] == t && Chain(states, a, fd)
  }

  lemma AloneOnce(s: State, a: nat, fd: nat)
    requires CanStep(s, a)
    ensures Alone(s, ThreadNext(s, a, fd, false), a, fd, 1)
  {
    var states := [s, ThreadNext(s, a, fd, false)];
    assert Chain(states, a, fd) && |states| == 2 && states[0] == s && states[1] == ThreadNext(s, a, fd, false);
  }

  lemma AloneOn(s: State, s': State, t: State, a: nat, fd: nat, n: nat)
    requires Alone(s, s', a, fd, 1) && Alone(s', t, a, fd, n)
    ensures Alone(s, t, a, fd, n + 1)
  {
    var first: seq<State> :| |first| == 2 && first[0] == s && first[1] == s' && Chain(first, a, fd);
    var rest: seq<State> :| |rest| == n + 1 && rest[0] == s' && rest[n] == t && Chain(rest, a, fd);
    var states := [s] + rest;
    forall i: nat | i + 1 < |states| ensures StepAt(states, i, a, fd) {
      if i == 0 {
        assert StepAt(first, 0, a, fd);
      } else {
        assert StepAt(rest, i - 1, a, fd);
      }
    }
    assert |states| == n + 2 && states[0] == s && states[n + 1] == t;
  }

  /** From `s` to `s'` thread `a` came nearer to the end of its call, or has returned having seen Initialized. */
  ghost predicate Nearer(s: State, s': State, a: nat, k: Key) {
    && ModOf(s', k.m).fin == ModOf(s, k.m).fin
    && (|| (PcOf(s', a) == Returned(k, Initialized) && KeyOf(s', k).word == Initialized)
        || (Inside(PcOf(s', a)) && PcOf(s', a).k == k && Unobstructed(s', a) && Rank(s', a) < Rank(s, a)))
  }

  lemma WordNearer(s: State, a: nat)
    requires InvMaps(s) && OnWord(PcOf(s, a)) && Unobstructed(s, a)
    ensures Nearer(s, WordNext(s, a, PcOf(s, a)), a, PcOf(s, a).k)
  {
  }

  lemma CasNearer(s: State, a: nat, fd: nat)
    requires InvMaps(s) && (PcOf(s, a).MapCas? || PcOf(s, a).MapResurrect?) && Unobstructed(s, a)
    ensures Nearer(s, MapNext(s, a, PcOf(s, a), fd, false), a, PcOf(s, a).k)
  {
    var m := PcOf(s, a).k.m;
    assert m in s.mods ==> ModFine(s.mods[m], m, s.threads);
  }

  lemma OpenNearer(s: State, a: nat, fd: nat)
    requires InvShm(s) && PcOf(s, a).MapOpen?
    ensures Nearer(s, MapNext(s, a, PcOf(s, a), fd, false), a, PcOf(s, a).k)
  {
    if s.shm.linked.Some? {
      var g := s.shm.linked.value;
      assert GmemFine(s.shm.gmems[g], s.shm.linked == Some(g), |AttachedSet(s.mods)|);
    }
  }

  lemma LockNearer(s: State, a: nat, fd: nat)
    requires InvShm(s) && PcOf(s, a).MapLock? && CanStep(s, a)
    ensures Nearer(s, MapNext(s, a, PcOf(s, a), fd, false), a, PcOf(s, a).k)
  {
    var g := ModOf(s, PcOf(s, a).k.m).handle;
    assert GmemFine(s.shm.gmems[g], s.shm.linked == Some(g), |AttachedSet(s.mods)|);
  }

  lemma ReadyNearer(s: State, a: nat, fd: nat)
    requires PcOf(s, a).MapRetry? || PcOf(s, a).MapReady?
    ensures Nearer(s, MapNext(s, a, PcOf(s, a), fd, false), a, PcOf(s, a).k)
  {
  }

  lemma ObjectNearer(s: State, a: nat)
    requires !OnMap(PcOf(s, a)) && !OnWord(PcOf(s, a)) && CanStep(s, a)
    ensures Nearer(s, ObjectNext(s, a, PcOf(s, a), false), a, PcOf(s, a).k)
  {
  }

  lemma AloneStep(s: State, a: nat, fd: nat) returns (s': State)
    requires Reaches(s) && Unobstructed(s, a)
    ensures Reaches(s') && Nearer(s, s', a, PcOf(s, a).k) && Alone(s, s', a, fd, 1)
  {
    ReachedInv(s);
    CanAlwaysStep(s, a);
    var pc := PcOf(s, a);
    if OnWord(pc) {
      WordNearer(s, a);
    } else if pc.MapCas? || pc.MapResurrect? {
      CasNearer(s, a, fd);
    } else if pc.MapOpen? {
      OpenNearer(s, a, fd);
    } else if pc.MapLock? {
      LockNearer(s, a, fd);
    } else if OnMap(pc) {
      ReadyNearer(s, a, fd);
    } else {
      ObjectNearer(s, a);
    }
    s' := ThreadNext(s, a, fd, false);
    ReachStep(s, ThreadStep(a, fd, false), s');
    AloneOnce(s, a, fd);
  }

  /** Left alone, a call that nothing stands in the way of returns having seen Initialized, within forty steps; and
      unless a finalizer of its module is at work, with a good pointer.  It may be the first call for its type or
      a later one, of a module with or without other singletons, of a Phoenix that was destroyed, and it may find
      an instance that an older process left behind. */
  lemma AloneReturns(s: State, a: nat, fd: nat, k: Key) returns (t: State, n: nat)
    requires Reaches(s) && Unobstructed(s, a) && PcOf(s, a).k == k
    ensures n <= Rank(s, a) && Alone(s, t, a, fd, n)
    ensures Reaches(t) && PcOf(t, a) == Returned(k, Initialized)
    ensures ModOf(s, k.m).fin == NoFin ==> GoodPointer(t, k)
  {
    t, n := AloneEnds(s, a, fd, k, ModOf(s, k.m).fin, Rank(s, a));
    PointerOfInitialized(t, k);
  }

  /** The call of thread `a` has returned, having seen Initialized. */
  ghost predicate Ended(t: State, a: nat, k: Key, fin: Fin) {
    && Reaches(t) && PcOf(t, a) == Returned(k, Initialized) && KeyOf(t, k).word == Initialized
    && ModOf(t, k.m).fin == fin
  }

  /** Thread `a` is at most `r` steps from the end of its call. */
  ghost predicate Within(s: State, a: nat, k: Key, fin: Fin, r: nat) {
    && Reaches(s) && Unobstructed(s, a) && PcOf(s, a).k == k && ModOf(s, k.m).fin == fin && Rank(s, a) <= r
  }

  lemma AloneMove(s: State, a: nat, fd: nat, k: Key, fin: Fin, r: nat) returns (s': State)
    requires Within(s, a, k, fin, r)
    ensures Alone(s, s', a, fd, 1) && r > 0
    ensures Ended(s', a, k, fin) || Within(s', a, k, fin, r - 1)
  {
    s' := AloneStep(s, a, fd);
  }

  lemma {:induction false} AloneEnds(s: State, a: nat, fd: nat, k: Key, fin: Fin, r: nat) returns (t: State, n: nat)
    requires Within(s, a, k, fin, r)
    ensures n <= r && Alone(s, t, a, fd, n) && Ended(t, a, k, fin)
    decreases r
  {
    var s' := AloneMove(s, a, fd, k, fin, r);
    if Ended(s', a, k, fin) {
      t, n := s', 1;
    } else {
      var m;
      t, m := AloneEnds(s', a, fd, k, fin, r - 1);
      AloneOn(s, s', t, a, fd, m);
      n := m + 1;
    }
  }

  lemma PointerOfInitialized(s: State, k: Key)
    requires Reaches(s) && KeyOf(s, k).word == Initialized
    ensures ModOf(s, k.m).fin == NoFin ==> GoodPointer(s, k)
  {
    ReachedInv(s);
    PointerGood(s, k);
  }

  lemma CanAlwaysStep(s: State, a: nat)
    requires InvMaps(s) && InvShm(s) && InvBound(s) && Inside(PcOf(s, a))
    ensures CanStep(s, a)
  {
    if PcOf(s, a).Construct? {
      BoundToLinked(s, PcOf(s, a).k.m);
    }
  }

  /** A call for a singleton that exists, is new, or is a destroyed Phoenix, made while no thread is opening the
      module's map, is one that nothing stands in the way of, or has returned already. */
  lemma CallWorks(s: State, a: nat, k: Key)
    requires Reaches(s) && CanCall(s, a, k) && ModOf(s, k.m).fin == NoFin
    requires || KeyOf(s, k).word == Initialized
             || (MapFree(s, k.m)
                 && (KeyOf(s, k).word == Uninitialized || (KeyOf(s, k).word == Destroyed && k.t in s.phoenix)))
    ensures var s' := CallNext(s, a, k);
            && Reaches(s') && ModOf(s', k.m).fin == NoFin
            && (|| (PcOf(s', a) == Returned(k, Initialized) && GoodPointer(s', k))
                || (Unobstructed(s', a) && PcOf(s', a).k == k))
  {
    ReachStep(s, Call(a, k), CallNext(s, a, k));
    if KeyOf(s, k).word == Initialized {
      PointerOfInitialized(CallNext(s, a, k), k);
    }
  }

  // ---------- a finalizer completes

  ghost function Finishing(s: State, m: nat, n: nat): State
    decreases n
  {
    if n == 0 || !CanFinish(s, m) then s else Finishing(FinNext(s, m), m, n - 1)
  }

  function FinRank(fin: Fin): nat {
    if fin.FinPtr? then 6 else if fin.FinWord? then 5 else if fin.FinCount? then 4
    else if fin == FinCheck then 3 else if fin == FinUnlink then 2 else if fin == FinMap then 1 else 0
  }

  /** What the finalizer of key `k` has done so far; `last` tells that it is the module's last singleton. */
  predicate FinDone(s: State, k: Key, last: bool) {
    var fin, ms, ks := ModOf(s, k.m).fin, ModOf(s, k.m), KeyOf(s, k);
    if fin == FinPtr(k.t) then ms.count == 1 <==> last
    else if fin == FinWord(k.t) then (ms.count == 1 <==> last) && ks.ptr == 0
    else
      && ks.ptr == 0 && ks.word == Destroyed
      && if fin == FinCount(k.t) then ms.count == 1 <==> last
         else if fin == FinCheck then last && ms.count == 0
         else if fin == FinUnlink || fin == FinMap then last
         else fin == NoFin && ms.mapWord == if last then Destroyed else Initialized
  }

  lemma FinishStep(s: State, k: Key, last: bool) returns (s': State)
    requires Reaches(s) && CanFinish(s, k.m) && FinDone(s, k, last)
    ensures Reaches(s') && FinDone(s', k, last) && FinRank(ModOf(s', k.m).fin) < FinRank(ModOf(s, k.m).fin)
    ensures ModOf(s', k.m).fin != NoFin ==> CanFinish(s', k.m)
    ensures forall n: nat {:trigger Finishing(s', k.m, n)} :: Finishing(s, k.m, n + 1) == Finishing(s', k.m, n)
  {
    ReachedInv(s);
    FinishNear(s, k, last);
    s' := FinNext(s, k.m);
    ReachStep(s, FinStep(k.m), s');
  }

  lemma FinishNear(s: State, k: Key, last: bool)
    requires InvMaps(s) && InvShm(s) && CanFinish(s, k.m) && FinDone(s, k, last)
    ensures var s' := FinNext(s, k.m);
            && FinDone(s', k, last) && FinRank(ModOf(s', k.m).fin) < FinRank(ModOf(s, k.m).fin)
            && (ModOf(s', k.m).fin != NoFin ==> CanFinish(s', k.m))
  {
    assert ModFine(s.mods[k.m], k.m, s.threads);
    if ModOf(s, k.m).fin != FinMap {
      BoundToLinked(s, k.m);
    }
  }

  /** Left alone, a finalizer ends within six steps: the word is Destroyed, the pointer null, and the module's map
      destroyed and the module detached exactly when it was the module's last singleton. */
  lemma {:induction false} FinishEnds(s: State, k: Key, last: bool) returns (n: nat)
    requires Reaches(s) && CanFinish(s, k.m) && FinDone(s, k, last)
    ensures n <= FinRank(ModOf(s, k.m).fin) && Reaches(Finishing(s, k.m, n))
    ensures var t := Finishing(s, k.m, n);
            && ModOf(t, k.m).fin == NoFin && KeyOf(t, k).word == Destroyed && KeyOf(t, k).ptr == 0
            && ModOf(t, k.m).mapWord == if last then Destroyed else Initialized
    decreases FinRank(ModOf(s, k.m).fin)
  {
    var s' := FinishStep(s, k, last);
    assert Finishing(s', k.m, 0) == s';
    if ModOf(s', k.m).fin == NoFin {
      n := 1;
      assert Finishing(s, k.m, 0 + 1) == Finishing(s', k.m, 0);
    } else {
      var i := FinishEnds(s', k, last);
      n := i + 1;
      assert Finishing(s, k.m, i + 1) == Finishing(s', k.m, i);
    }
  }

  /** finalize_singleton_logic of a key that can be released, left alone. */
  lemma FinalizeWorks(s: State, k: Key) returns (n: nat)
    requires Reaches(s) && CanFini(s, k)
    ensures n <= 6 && Reaches(Finishing(FiniNext(s, k), k.m, n))
    ensures var t := Finishing(FiniNext(s, k), k.m, n);
            && ModOf(t, k.m).fin == NoFin && KeyOf(t, k).word == Destroyed && KeyOf(t, k).ptr == 0
            && ModOf(t, k.m).mapWord == (if ModOf(s, k.m).count == 1 then Destroyed else Initialized)
            && (k.m in AttachedModules(t) <==> ModOf(s, k.m).count != 1)
  {
    FinalizeBegins(s, k);
    ReachStep(s, Fini(k), FiniNext(s, k));
    n := FinishEnds(FiniNext(s, k), k, ModOf(s, k.m).count == 1);
    DetachedWhenDestroyed(Finishing(FiniNext(s, k), k.m, n), k.m);
  }

  lemma FinalizeBegins(s: State, k: Key)
    requires Reaches(s) && CanFini(s, k)
    ensures var s' := FiniNext(s, k);
            ModOf(s', k.m).fin == FinPtr(k.t) && CanFinish(s', k.m) && FinDone(s', k, ModOf(s, k.m).count == 1)
  {
    ReachedInv(s);
    ReleaseReady(s, k);
    FiniFrame(s, k);
  }

  lemma DetachedWhenDestroyed(s: State, m: nat)
    requires Reaches(s) && ModOf(s, m).fin == NoFin
    requires ModOf(s, m).mapWord == Initialized || ModOf(s, m).mapWord == Destroyed
    ensures m in AttachedModules(s) <==> ModOf(s, m).mapWord == Initialized
  {
    ReachedInv(s);
    HistoryOfModules(s);
    assert m in s.mods ==> ModFine(s.mods[m], m, s.threads);
  }

  // ---------- again and again

  lemma ThreadFrame(s: State, a: nat, fd: nat, throws: bool)
    requires CanStep(s, a)
    ensures var s' := ThreadNext(s, a, fd, throws);
            && s'.phoenix == s.phoenix && s'.threads == s.threads[a := PcOf(s', a)]
            && (forall m :: ModOf(s', m).fin == ModOf(s, m).fin)
  {
    if OnWord(PcOf(s, a)) {
      WordFrame(s, a);
    } else if OnMap(PcOf(s, a)) {
      MapFrame(s, a, fd, throws);
    } else {
      ObjectFrame(s, a, throws);
    }
  }

  /** Only the thread left alone moves. */
  lemma AloneFrame(s: State, t: State, a: nat, fd: nat, n: nat)
    requires Alone(s, t, a, fd, n)
    ensures t.phoenix == s.phoenix && (forall b | b != a :: PcOf(t, b) == PcOf(s, b))
    ensures forall m :: ModOf(t, m).fin == ModOf(s, m).fin
  {
    var states: seq<State> :| |states| == n + 1 && states[0] == s && states[n] == t && Chain(states, a, fd);
    ChainFrame(states, a, fd, n);
  }

  lemma {:induction false} ChainFrame(states: seq<State>, a: nat, fd: nat, i: nat)
    requires Chain(states, a, fd) && i < |states|
    ensures states[i].phoenix == states[0].phoenix && (forall b | b != a :: PcOf(states[i], b) == PcOf(states[0], b))
    ensures forall m :: ModOf(states[i], m).fin == ModOf(states[0], m).fin
  {
    if i > 0 {
      ChainFrame(states, a, fd, i - 1);
      assert StepAt(states, i - 1, a, fd);
      ThreadFrame(states[i - 1], a, fd, false);
    }
  }

  lemma {:induction false} FinishFrame(s: State, m: nat, n: nat)
    ensures var t := Finishing(s, m, n); t.phoenix == s.phoenix && t.threads == s.threads
    decreases n
  {
    if n > 0 && CanFinish(s, m) {
      FinishFrame(FinNext(s, m), m, n - 1);
    }
  }

  /** A module that nobody is initializing can release a singleton it has a pointer to. */
  lemma CanRelease(s: State, k: Key)
    requires Reaches(s) && ModOf(s, k.m).fin == NoFin && Quiet(s.threads, k.m) && GoodPointer(s, k)
    ensures CanFini(s, k)
  {
    ReachedInv(s);
    FiniReady(s, k);
    BoundToLinked(s, k.m);
  }

  /** A Phoenix rises: after the finalizer of a Phoenix singleton has ended, a call left alone returns with a good
      pointer again. */
  lemma PhoenixRises(s: State, k: Key, a: nat, fd: nat) returns (t: State)
    requires Reaches(s) && CanFini(s, k) && k.t in s.phoenix && !Inside(PcOf(s, a))
    ensures Reaches(t) && PcOf(t, a) == Returned(k, Initialized) && GoodPointer(t, k)
  {
    var n := FinalizeWorks(s, k);
    var s1 := Finishing(FiniNext(s, k), k.m, n);
    FinishFrame(FiniNext(s, k), k.m, n);
    CallWorks(s1, a, k);
    var n';
    t, n' := AloneReturns(CallNext(s1, a, k), a, fd, k);
  }

  // ---------- where the protocol gets stuck

  /** An exception left the map word of module `m` at Initializing: no thread is opening the map. */
  ghost predicate Abandoned(s: State, m: nat) {
    && ModOf(s, m).mapWord == Initializing
    && forall a | a in s.threads && MapOwner(s.threads[a]) :: s.threads[a].k.m != m
  }

  lemma AbandonedStep(s: State, l: Label, m: nat)
    requires InvMaps(s) && Abandoned(s, m) && Enabled(s, l)
    ensures Abandoned(Next(s, l), m)
  {
    if m in s.mods {
      assert ModFine(s.mods[m], m, s.threads);
    }
    if l.ThreadStep? {
      AbandonedThread(s, l.a, l.fd, l.throws, m);
    }
  }

  lemma AbandonedThread(s: State, a: nat, fd: nat, throws: bool, m: nat)
    requires InvMaps(s) && Abandoned(s, m) && CanStep(s, a)
    ensures Abandoned(ThreadNext(s, a, fd, throws), m)
  {
    if OnWord(PcOf(s, a)) {
      WordFrame(s, a);
    } else if OnMap(PcOf(s, a)) {
      MapFrame(s, a, fd, throws);
    } else {
      ObjectFrame(s, a, throws);
    }
  }

  lemma AbandonedRunStep(run: seq<State>, labels: seq<Label>, i: nat, m: nat)
    requires IsRun(run, labels) && i < |labels| && Abandoned(run[i], m)
    ensures Abandoned(run[i + 1], m)
  {
    RunInv(run, labels, i);
    AbandonedStep(run[i], labels[i], m);
  }

  lemma {:induction false} AbandonedForEver(run: seq<State>, labels: seq<Label>, i: nat, j: nat, m: nat)
    requires IsRun(run, labels) && i <= j < |run| && Abandoned(run[i], m)
    ensures Abandoned(run[j], m)
    decreases j
  {
    if i < j {
      AbandonedForEver(run, labels, i, j - 1, m);
      AbandonedRunStep(run, labels, j - 1, m);
    }
  }

  /** A map word left at Initializing stays so for ever, and no thread of the module uses the map again: every later
      call for a new singleton of the module waits for ever. */
  lemma StuckForEver(run: seq<State>, labels: seq<Label>, i: nat, j: nat, m: nat)
    requires IsRun(run, labels) && i <= j < |run| && Abandoned(run[i], m)
    ensures ModOf(run[j], m).mapWord == Initializing
    ensures forall a | a in run[j].threads && (UsesMap(run[j].threads[a]) || MapOwner(run[j].threads[a])) ::
              run[j].threads[a].k.m != m
  {
    AbandonedForEver(run, labels, i, j, m);
    RunInv(run, labels, j);
  }

  /** An exception while the map is opened abandons the map word. */
  lemma ThrowAbandons(s: State, a: nat, fd: nat)
    requires InvMaps(s) && CanStep(s, a) && (PcOf(s, a).MapOpen? || PcOf(s, a).MapLock?)
    ensures Abandoned(ThreadNext(s, a, fd, true), PcOf(s, a).k.m)
  {
    var m := PcOf(s, a).k.m;
    assert ModFine(s.mods[m], m, s.threads);
  }
}
