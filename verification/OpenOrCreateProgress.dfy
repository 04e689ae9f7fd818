/** What the create/open protocol achieves: who throws and why, that a process left alone finishes, and that an
    aborted creation is signalled to those who wait for it. */
module OpenOrCreateProgress {
  import opened Options
  import opened Words
  import opened OpenOrCreate

  // ---------- why a process throws

  /** The cast of a size to the signed offset_t, and back. */
  function CastToOffset(c: Config, size: nat): int {
    var x := Wrap(c.offsetBits, size);
    if 2 * x >= Pow2(c.offsetBits) then x - Pow2(c.offsetBits) else x
  }

  /** The check of a size against offset_t lets through exactly the sizes that survive the cast and back. */
  lemma OffsetKeepsExactly(c: Config, size: nat)
    requires c.offsetBits > 0 && size < Pow2(c.sizeBits)
    ensures OffsetKeeps(c, size) <==> Wrap(c.sizeBits, CastToOffset(c, size)) == size
  {
    if c.offsetBits >= c.sizeBits {
      CastOfWide(c, size);
    } else {
      CastOfNarrow(c, size);
    }
  }

  lemma CastOfWide(c: Config, size: nat)
    requires c.offsetBits >= c.sizeBits && size < Pow2(c.sizeBits)
    ensures Wrap(c.sizeBits, CastToOffset(c, size)) == size
  {
    Pow2Monotone(c.sizeBits, c.offsetBits);
    WrapSmall(c.offsetBits, size);
    WrapSmall(c.sizeBits, size);
    WrapWrap(c.sizeBits, c.offsetBits, size - Pow2(c.offsetBits));
    WrapShift(c.offsetBits, size - Pow2(c.offsetBits));
  }

  lemma CastOfNarrow(c: Config, size: nat)
    requires 0 < c.offsetBits < c.sizeBits && size < Pow2(c.sizeBits)
    ensures Wrap(c.sizeBits, CastToOffset(c, size)) == size
            <==> size < Pow2(c.offsetBits - 1) || size + Pow2(c.offsetBits - 1) >= Pow2(c.sizeBits)
  {
    var x := Wrap(c.offsetBits, size);
    Pow2Monotone(c.offsetBits + 1, c.sizeBits);
    if 2 * x < Pow2(c.offsetBits) {
      WrapSmall(c.sizeBits, x);
      if size < Pow2(c.offsetBits - 1) {
        WrapSmall(c.offsetBits, size);
      }
    }
    if size + Pow2(c.offsetBits - 1) >= Pow2(c.sizeBits) {
      TopOfNarrow(c, size);
    }
  }

  /** The sizes just below 2^sizeBits keep their low bits when sign bits are put in front. */
  lemma TopOfNarrow(c: Config, size: nat)
    requires 0 < c.offsetBits < c.sizeBits && size < Pow2(c.sizeBits)
    requires size + Pow2(c.offsetBits - 1) >= Pow2(c.sizeBits)
    ensures Wrap(c.offsetBits, size) == size - Pow2(c.sizeBits) + Pow2(c.offsetBits)
  {
    var y := size - Pow2(c.sizeBits);
    WrapWrap(c.offsetBits, c.sizeBits, y);
    WrapShift(c.sizeBits, y);
    WrapSmall(c.sizeBits, size);
    WrapShift(c.offsetBits, y);
    WrapSmall(c.offsetBits, y + Pow2(c.offsetBits));
  }

  /** A call throws at once exactly when it may create and its size is refused. */
  lemma BeginThrows(c: Config, s: State, p: nat, mode: Mode, size: nat)
    requires ValidConfig(c) && size < Pow2(c.sizeBits)
    ensures PcOf(BeginNext(c, s, p, mode, size), p) == Threw <==>
            && mode != DoOpen
            && (|| c.minSize + c.userOffset >= Pow2(c.sizeBits)
                || size < c.minSize + c.userOffset
                || (c.fileBased && Wrap(c.sizeBits, CastToOffset(c, size)) != size))
  {
    OffsetKeepsExactly(c, size);
  }

  /** An opener that meets no error and no timeout throws only on a device whose creation aborted, or because it
      saw a file of one byte, which a creator in the middle of truncating may also show. */
  lemma OpenerThrows(c: Config, run: seq<State>, labels: seq<Label>, i: nat)
    requires IsRun(c, run, labels) && i < |labels| && labels[i].Step? && !labels[i].throws
    requires Opening(PcOf(run[i], labels[i].p)) && PcOf(run[i + 1], labels[i].p) == Threw
    ensures var pc := PcOf(run[i], labels[i].p);
            && pc.d < |run[i].devices|
            && (|| run[i].devices[pc.d].phase == Aborted
                || (pc.WaitSize? && c.fileBased && run[i].devices[pc.d].size == 1))
  {
    RunInv(c, run, labels, i);
    var pc := PcOf(run[i], labels[i].p);
    assert ProcOk(c, pc, labels[i].p, run[i].devices);
    assert DeviceOk(run[i].devices[pc.d]);
  }

  /** A process that meets no error gives up creating exactly when the name exists and it may not open, or has
      used up its attempts; and gives up opening exactly when there is no name and it may not create. */
  lemma TryThrows(c: Config, s: State, p: nat)
    requires PcOf(s, p).TryCreate? || PcOf(s, p).TryOpen?
    ensures var pc := PcOf(s, p);
            PcOf(Next(c, s, Step(p, false, 0)), p) == Threw <==>
            if pc.TryCreate? then s.linked.Some? && (pc.mode == DoCreate || pc.tries + 1 == c.maxTries)
            else s.linked == None && pc.mode == DoOpen
  {
  }

  /** A creator aborts only after an error. */
  lemma CreatorAborts(c: Config, run: seq<State>, labels: seq<Label>, i: nat)
    requires IsRun(c, run, labels) && i < |labels| && labels[i].Step? && Creating(PcOf(run[i], labels[i].p))
    requires var pc := PcOf(run[i], labels[i].p); !pc.Corrupt? && !pc.Abort?
    ensures var pc := PcOf(run[i + 1], labels[i].p); pc.Corrupt? || pc.Abort? || pc == Threw ==> labels[i].throws
  {
    RunInv(c, run, labels, i);
    var pc := PcOf(run[i], labels[i].p);
    assert ProcOk(c, pc, labels[i].p, run[i].devices);
    assert DeviceOk(run[i].devices[pc.d]);
  }

  // ---------- a process left alone finishes

  predicate LinkedPublished(s: State) {
    s.linked.Some? && s.linked.value < |s.devices| && s.devices[s.linked.value].phase == Published
  }

  /** Process `p` has what it needs: a free name or a published segment to open. */
  predicate Promising(c: Config, s: State, p: nat) {
    var pc := PcOf(s, p);
    if pc.TryCreate? then
      s.linked == None || (pc.mode == DoOpenOrCreate && pc.tries + 1 < c.maxTries && LinkedPublished(s))
    else if pc.TryOpen? then LinkedPublished(s) || (s.linked == None && pc.mode == DoOpenOrCreate)
    else if Opening(pc) then pc.d < |s.devices| && s.devices[pc.d].phase == Published
    else Creating(pc) && !pc.Corrupt? && !pc.Abort?
  }

  /** Whether the process will create, and the device it will create or open. */
  function Destination(s: State, p: nat): (bool, nat) {
    var pc := PcOf(s, p);
    if pc.TryCreate? || pc.TryOpen? then
      if s.linked.Some? then (false, s.linked.value) else (true, |s.devices|)
    else if Creating(pc) || pc.Created? then (true, pc.d)
    else if Opening(pc) || pc.Opened? then (false, pc.d) else (false, 0)
  }

  /** The process holds no mapping that is smaller than its device. */
  predicate FullView(s: State, p: nat) {
    var pc := PcOf(s, p);
    (pc.ReadWord? || pc.OpenConstruct? || pc.Opened?) && pc.d < |s.devices| ==> pc.mapped == s.devices[pc.d].full
  }

  predicate Polls(pc: Pc) {
    pc.Poll? || pc.Remap? || ((pc.OpenConstruct? || pc.Opened?) && pc.polled)
  }

  function Rank(s: State, p: nat): nat {
    var pc := PcOf(s, p);
    if pc.TryCreate? then 20
    else if pc.TryOpen? then if s.linked.Some? then 10 else 21
    else if pc.Truncate? then 6
    else if pc.MapNew? then 5
    else if pc.Cas? then 4
    else if pc.Construct? then 3
    else if pc.Publish? then 2
    else if pc.WaitSize? then 7
    else if pc.MapOld? then 6
    else if pc.ReadWord? then 5
    else if pc.Poll? then 4
    else if pc.Remap? then 3
    else if pc.OpenConstruct? then 2 else 0
  }

  /** The next step of a process that meets no error; truncation goes all the way. */
  function AloneLabel(s: State, p: nat): Label {
    var pc := PcOf(s, p);
    Step(p, false, if Creating(pc) && pc.d < |s.devices| then s.devices[pc.d].full else 0)
  }

  ghost function Alone(c: Config, s: State, p: nat, n: nat): State
    decreases n
  {
    if n == 0 || !Enabled(s, AloneLabel(s, p)) then s else Alone(c, Next(c, s, AloneLabel(s, p)), p, n - 1)
  }

  /** From `s` to `s'` process `p` came nearer to the same end, or is finished. */
  ghost predicate Nearer(c: Config, s: State, s': State, p: nat) {
    && Destination(s', p) == Destination(s, p) && (FullView(s, p) ==> FullView(s', p))
    && (Polls(PcOf(s, p)) ==> Polls(PcOf(s', p)))
    && (PcOf(s', p).Created? || PcOf(s', p).Opened? || (Promising(c, s', p) && Rank(s', p) < Rank(s, p)))
  }

  lemma TryStep(c: Config, s: State, p: nat)
    requires ValidConfig(c) && Inv(c, s) && Promising(c, s, p) && (PcOf(s, p).TryCreate? || PcOf(s, p).TryOpen?)
    ensures Nearer(c, s, Next(c, s, AloneLabel(s, p)), p)
  {
  }

  lemma CreatorStep(c: Config, s: State, p: nat)
    requires Inv(c, s) && Promising(c, s, p) && Creating(PcOf(s, p))
    ensures Enabled(s, AloneLabel(s, p)) && Nearer(c, s, Next(c, s, AloneLabel(s, p)), p)
  {
    var pc := PcOf(s, p);
    assert ProcOk(c, pc, p, s.devices);
    assert DeviceOk(s.devices[pc.d]);
  }

  lemma OpenerStep(c: Config, s: State, p: nat)
    requires Inv(c, s) && Promising(c, s, p) && Opening(PcOf(s, p))
    ensures Nearer(c, s, Next(c, s, AloneLabel(s, p)), p)
  {
    var pc := PcOf(s, p);
    assert ProcOk(c, pc, p, s.devices);
    assert DeviceOk(s.devices[pc.d]);
  }

  /** One step of a process left alone: it is finished, or nearer to the same end. */
  lemma AloneStep(c: Config, s: State, p: nat) returns (s': State)
    requires ValidConfig(c) && Inv(c, s) && Promising(c, s, p)
    ensures Inv(c, s') && Nearer(c, s, s', p)
    ensures forall n: nat {:trigger Alone(c, s', p, n)} :: Alone(c, s, p, n + 1) == Alone(c, s', p, n)
  {
    if Creating(PcOf(s, p)) {
      CreatorStep(c, s, p);
    } else if Opening(PcOf(s, p)) {
      OpenerStep(c, s, p);
    } else {
      TryStep(c, s, p);
    }
    s' := Next(c, s, AloneLabel(s, p));
    StepInv(c, s, AloneLabel(s, p));
  }

  /** Process `p` is done: it created or opened device `d`, which is published at its full size; `whole` tells that
      an opener has all of it mapped, `polled` that it mapped it again after polling. */
  predicate Ends(t: State, p: nat, create: bool, d: nat, whole: bool, polled: bool) {
    && d < |t.devices| && t.devices[d].word == Initialized && t.devices[d].size == t.devices[d].full
    && (if create then PcOf(t, p) == Created(d) else PcOf(t, p).Opened? && PcOf(t, p).d == d)
    && (whole && !create ==> PcOf(t, p).mapped == t.devices[d].full)
    && (polled ==> PcOf(t, p) == Opened(d, t.devices[d].full, true))
  }

  /** Left alone, a process that has what it needs creates or opens the device it was heading for, and the segment
      it gets is published at its full size; an opener that was polling, or held no smaller mapping, has all of
      it mapped. */
  lemma AloneFinishes(c: Config, s: State, p: nat) returns (n: nat)
    requires ValidConfig(c) && Inv(c, s) && Promising(c, s, p)
    ensures n <= Rank(s, p)
    ensures var (create, d) := Destination(s, p);
            Ends(Alone(c, s, p, n), p, create, d, FullView(s, p), Polls(PcOf(s, p)))
  {
    var (create, d) := Destination(s, p);
    n := AloneEnds(c, s, p, create, d, FullView(s, p), Polls(PcOf(s, p)));
  }

  lemma {:induction false} AloneEnds(c: Config, s: State, p: nat, create: bool, d: nat, whole: bool, polled: bool)
      returns (n: nat)
    requires ValidConfig(c) && Inv(c, s) && Promising(c, s, p)
    requires Destination(s, p) == (create, d) && (whole ==> FullView(s, p)) && (polled ==> Polls(PcOf(s, p)))
    ensures n <= Rank(s, p) && Ends(Alone(c, s, p, n), p, create, d, whole, polled)
    decreases Rank(s, p)
  {
    var s' := AloneStep(c, s, p);
    if PcOf(s', p).Created? || PcOf(s', p).Opened? {
      n := 1;
      AloneOnce(c, s, s', p);
      FinishedAs(c, s', p, create, d, whole, polled);
    } else {
      var m := AloneEnds(c, s', p, create, d, whole, polled);
      n := m + 1;
      assert Alone(c, s, p, m + 1) == Alone(c, s', p, m);
    }
  }

  lemma AloneOnce(c: Config, s: State, s': State, p: nat)
    requires forall n: nat {:trigger Alone(c, s', p, n)} :: Alone(c, s, p, n + 1) == Alone(c, s', p, n)
    ensures Alone(c, s, p, 1) == s'
  {
    assert Alone(c, s', p, 0) == s';
  }

  lemma FinishedAs(c: Config, s: State, p: nat, create: bool, d: nat, whole: bool, polled: bool)
    requires Inv(c, s) && (PcOf(s, p).Created? || PcOf(s, p).Opened?) && Destination(s, p) == (create, d)
    requires (whole ==> FullView(s, p)) && (polled ==> Polls(PcOf(s, p)))
    ensures Ends(s, p, create, d, whole, polled)
  {
    Finished(c, s, p);
  }

  lemma Finished(c: Config, s: State, p: nat)
    requires Inv(c, s) && (PcOf(s, p).Created? || PcOf(s, p).Opened?)
    ensures var pc := PcOf(s, p);
            && pc.d < |s.devices| && s.devices[pc.d].word == Initialized && s.devices[pc.d].size == s.devices[pc.d].full
            && (pc.Opened? && pc.polled ==> pc.mapped == s.devices[pc.d].full)
  {
    assert ProcOk(c, PcOf(s, p), p, s.devices);
    assert DeviceOk(s.devices[PcOf(s, p).d]);
  }

  /** Each call, left alone, does what its name says: create_only creates a new device when the name is free,
      open_only opens the published one, open_or_create does the one or the other. */
  lemma CallWorks(c: Config, s: State, p: nat, mode: Mode, size: nat)
    requires ValidConfig(c) && Inv(c, s) && !Running(PcOf(s, p)) && (mode != DoOpen ==> SizeAccepted(c, size))
    requires if mode == DoCreate then s.linked == None
             else if mode == DoOpen then LinkedPublished(s)
             else s.linked == None || (LinkedPublished(s) && c.maxTries > 1)
    ensures var t := BeginNext(c, s, p, mode, size);
            && Inv(c, t) && Promising(c, t, p) && FullView(t, p)
            && Destination(t, p) == if s.linked == None then (true, |s.devices|) else (false, s.linked.value)
  {
    StepInv(c, s, Begin(p, mode, size));
  }

  // ---------- an aborted creation is signalled

  /** A creation that aborted after its construction began is marked Corrupted, or about to be, or its file cut
      to one byte. */
  ghost predicate Signalled(c: Config, dev: Device, d: nat, procs: map<nat, Pc>) {
    dev.phase == Aborted && dev.constructors != [] ==>
      || (dev.creator in procs && procs[dev.creator] == Corrupt(d))
      || dev.word == Corrupted || (c.fileBased && dev.size == 1)
  }

  ghost predicate InvSignalled(c: Config, s: State) {
    forall d | 0 <= d < |s.devices| :: Signalled(c, s.devices[d], d, s.procs)
  }

  lemma OthersSignalled(c: Config, s: State, p: nat, pc: Pc)
    requires InvSignalled(c, s) && !Creating(PcOf(s, p))
    ensures InvSignalled(c, SetPc(s, p, pc))
  {
    forall d | 0 <= d < |s.devices| ensures Signalled(c, s.devices[d], d, s.procs[p := pc]) {
      assert Signalled(c, s.devices[d], d, s.procs);
    }
  }

  lemma CreatorSignalled(c: Config, s: State, p: nat, pc: Pc, throws: bool, n: nat)
    requires Inv(c, s) && InvSignalled(c, s) && pc == PcOf(s, p) && Creating(pc) && pc.d < |s.devices|
    ensures InvSignalled(c, CreatorNext(c, s, p, pc, throws, n))
  {
    var s' := CreatorNext(c, s, p, pc, throws, n);
    assert ProcOk(c, pc, p, s.devices);
    assert DeviceOk(s.devices[pc.d]);
    assert Signalled(c, s.devices[pc.d], pc.d, s.procs);
    assert s'.devices == s.devices[pc.d := s'.devices[pc.d]] && s'.procs[p := PcOf(s', p)] == s'.procs;
    forall d | 0 <= d < |s.devices| && d != pc.d ensures Signalled(c, s.devices[d], d, s'.procs) {
      assert Signalled(c, s.devices[d], d, s.procs);
    }
  }

  lemma StepSignalled(c: Config, s: State, l: Label)
    requires ValidConfig(c) && Inv(c, s) && InvSignalled(c, s) && Enabled(s, l)
    ensures InvSignalled(c, Next(c, s, l))
  {
    if l.Begin? {
      OthersSignalled(c, s, l.p, PcOf(Next(c, s, l), l.p));
    } else if l.Step? {
      if Creating(PcOf(s, l.p)) {
        CreatorSignalled(c, s, l.p, PcOf(s, l.p), l.throws, l.n);
      } else {
        OthersSignalled(c, s, l.p, PcOf(Next(c, s, l), l.p));
      }
    }
  }

  /** In every run an aborted construction is signalled as soon as its creator has taken one more step. */
  lemma {:induction false} RunSignalled(c: Config, run: seq<State>, labels: seq<Label>, i: nat)
    requires IsRun(c, run, labels) && i < |run|
    ensures InvSignalled(c, run[i])
  {
    if i > 0 {
      RunSignalled(c, run, labels, i - 1);
      RunInv(c, run, labels, i - 1);
      StepSignalled(c, run[i - 1], labels[i - 1]);
    }
  }

  /** A creator that aborts cuts a file-like device to one byte, unless that fails too; an opener that comes to
      wait for such a device throws. */
  lemma AbortCuts(c: Config, s: State, p: nat, q: nat, n: nat)
    requires Inv(c, s) && PcOf(s, p).Abort? && c.fileBased
    ensures PcOf(s, p).d < |s.devices|
    ensures var s' := CreatorNext(c, s, p, PcOf(s, p), false, n);
            && s'.devices[PcOf(s, p).d].size == 1
            && (PcOf(s', q) == WaitSize(PcOf(s, p).d) ==>
                  PcOf(Next(c, s', Step(q, false, 0)), q) == Threw)
  {
    assert ProcOk(c, PcOf(s, p), p, s.devices);
  }

  function WaitRank(pc: Pc): nat {
    if pc.WaitSize? then 4 else if pc.MapOld? then 3 else if pc.ReadWord? then 2 else 1
  }

  lemma CorruptedStep(c: Config, s: State, p: nat) returns (s': State)
    requires ValidConfig(c) && Inv(c, s) && Opening(PcOf(s, p)) && PcOf(s, p).d < |s.devices|
    requires s.devices[PcOf(s, p).d].word == Corrupted && s.devices[PcOf(s, p).d].size > 0
    ensures Inv(c, s') && s'.devices == s.devices
    ensures PcOf(s', p) == Threw || (Opening(PcOf(s', p)) && PcOf(s', p).d == PcOf(s, p).d
                                     && WaitRank(PcOf(s', p)) < WaitRank(PcOf(s, p)))
    ensures forall n: nat {:trigger Alone(c, s', p, n)} :: Alone(c, s, p, n + 1) == Alone(c, s', p, n)
  {
    var pc := PcOf(s, p);
    assert ProcOk(c, pc, p, s.devices);
    assert DeviceOk(s.devices[pc.d]);
    s' := Next(c, s, AloneLabel(s, p));
    StepInv(c, s, AloneLabel(s, p));
  }

  /** Left alone, an opener of a device marked Corrupted throws. */
  lemma {:induction false} CorruptedThrows(c: Config, s: State, p: nat) returns (n: nat)
    requires ValidConfig(c) && Inv(c, s) && Opening(PcOf(s, p)) && PcOf(s, p).d < |s.devices|
    requires s.devices[PcOf(s, p).d].word == Corrupted && s.devices[PcOf(s, p).d].size > 0
    ensures n <= WaitRank(PcOf(s, p)) && PcOf(Alone(c, s, p, n), p) == Threw
    decreases WaitRank(PcOf(s, p))
  {
    var s' := CorruptedStep(c, s, p);
    assert Alone(c, s', p, 0) == s';
    if PcOf(s', p) == Threw {
      n := 1;
      assert Alone(c, s, p, 0 + 1) == Alone(c, s', p, 0);
    } else {
      var m := CorruptedThrows(c, s', p);
      n := m + 1;
      assert Alone(c, s, p, m + 1) == Alone(c, s', p, m);
    }
  }

  // ---------- runs that open

  lemma ReachedInv(c: Config, s: State)
    requires Reaches(c, s)
    ensures ValidConfig(c) && Inv(c, s)
  {
    var run, labels :| IsRun(c, run, labels) && run[|run| - 1] == s;
    RunInv(c, run, labels, |run| - 1);
  }

  lemma {:induction false} AloneReaches(c: Config, s: State, p: nat, n: nat)
    requires Reaches(c, s)
    ensures Reaches(c, Alone(c, s, p, n))
    decreases n
  {
    if n > 0 && Enabled(s, AloneLabel(s, p)) {
      ReachStep(c, s, AloneLabel(s, p), Next(c, s, AloneLabel(s, p)));
      AloneReaches(c, Next(c, s, AloneLabel(s, p)), p, n - 1);
    }
  }

  lemma StepFrame(c: Config, s: State, l: Label, q: nat)
    requires Enabled(s, l) && l.Step? && l.p != q
    ensures PcOf(Next(c, s, l), q) == PcOf(s, q)
    ensures s.linked.Some? ==> Next(c, s, l).linked == s.linked
  {
  }

  /** Only the process left alone moves, and it removes no name. */
  lemma {:induction false} AloneFrame(c: Config, s: State, p: nat, n: nat, q: nat)
    requires p != q
    ensures PcOf(Alone(c, s, p, n), q) == PcOf(s, q)
    ensures s.linked.Some? ==> Alone(c, s, p, n).linked == s.linked
    decreases n
  {
    var l := AloneLabel(s, p);
    if n > 0 && Enabled(s, l) {
      StepFrame(c, s, l, q);
      AloneFrame(c, Next(c, s, l), p, n - 1, q);
    }
  }

  /** An opener that has to poll, and a creator that publishes meanwhile. */
  lemma PolledDevice() returns (s: State)
    ensures Reaches(EXAMPLE, s) && PcOf(s, 2) == Poll(0) && PcOf(s, 3) == Idle
    ensures s.linked == Some(0) && |s.devices| > 0 && s.devices[0].word == Initialized
  {
    OpenerPolls();
    var t := SetPc(Half(), 2, Poll(0));
    ReachedInv(EXAMPLE, t);
    var n := AloneFinishes(EXAMPLE, t, 1);
    AloneReaches(EXAMPLE, t, 1, n);
    AloneFrame(EXAMPLE, t, 1, n, 2);
    AloneFrame(EXAMPLE, t, 1, n, 3);
    s := Alone(EXAMPLE, t, 1, n);
  }

  lemma OpenerPolls()
    ensures Reaches(EXAMPLE, SetPc(Half(), 2, Poll(0)))
  {
    OpenerMapsHalf();
    ReachStep(EXAMPLE, SetPc(Half(), 2, ReadWord(0, 50)), Step(2, false, 0), SetPc(Half(), 2, Poll(0)));
  }

  lemma InitializedIsPublished(c: Config, s: State, d: nat)
    requires Inv(c, s) && d < |s.devices| && s.devices[d].word == Initialized
    ensures s.devices[d].phase == Published
  {
    assert DeviceOk(s.devices[d]);
  }

  /** A run in which an opener polls, maps again and opens the whole segment. */
  lemma PolledOpenHappens()
    ensures exists s :: Reaches(EXAMPLE, s) && |s.devices| > 0 && PcOf(s, 2) == Opened(0, s.devices[0].full, true)
  {
    var s := PolledDevice();
    ReachedInv(EXAMPLE, s);
    InitializedIsPublished(EXAMPLE, s, 0);
    var n := AloneFinishes(EXAMPLE, s, 2);
    AloneReaches(EXAMPLE, s, 2, n);
    var t := Alone(EXAMPLE, s, 2, n);
    assert Reaches(EXAMPLE, t) && PcOf(t, 2) == Opened(0, t.devices[0].full, true);
  }

  /** A run in which open_or_create opens a segment that exists. */
  lemma ExistingOpenHappens()
    ensures exists s :: Reaches(EXAMPLE, s) && |s.devices| > 0 && PcOf(s, 3).Opened? && PcOf(s, 3).d == 0
                        && PcOf(s, 3).mapped == s.devices[0].full
  {
    var s := PolledDevice();
    ReachedInv(EXAMPLE, s);
    InitializedIsPublished(EXAMPLE, s, 0);
    assert SizeAccepted(EXAMPLE, 100);
    CallWorks(EXAMPLE, s, 3, DoOpenOrCreate, 100);
    var t := BeginNext(EXAMPLE, s, 3, DoOpenOrCreate, 100);
    ReachStep(EXAMPLE, s, Begin(3, DoOpenOrCreate, 100), t);
    var n := AloneFinishes(EXAMPLE, t, 3);
    AloneReaches(EXAMPLE, t, 3, n);
    assert Reaches(EXAMPLE, Alone(EXAMPLE, t, 3, n));
  }
}
