/** Creating and opening a managed segment (detail/managed_open_or_create_impl.hpp): processes race on
    exclusive creation, truncation, mapping, the CAS of the first word, construction and publication, and
    on waiting, mapping, polling and remapping.  A device is an object with a size and a first word;
    removing the name and creating it again gives a new device. */
module OpenOrCreate {
  import opened Words
  import opened Options

  datatype Word = Uninitialized | Initializing | Initialized | Corrupted

  /** How far the creator of a device got: history, read by no step. */
  datatype Phase = Fresh | Constructing | Constructed | Published | Aborted

  /** `full` is the size its creator asked for; `creator`, `phase` and `constructors` (the processes that
      entered construct_func with created == true) are history. */
  datatype Device = Device(size: nat, word: Word, full: nat, creator: nat, phase: Phase, constructors: seq<nat>)

  datatype Mode = DoCreate | DoOpen | DoOpenOrCreate

  datatype Pc =
    | Idle
    | TryCreate(mode: Mode, size: nat, tries: nat)
    | TryOpen(mode: Mode, size: nat, tries: nat)
    // do_map_after_create
    | Truncate(d: nat) | MapNew(d: nat) | Cas(d: nat) | Construct(d: nat) | Publish(d: nat)
    | Corrupt(d: nat)                              // about to write CorruptedSegment
    | Abort(d: nat)                                // about to truncate the device to size 1
    // do_map_after_open
    | WaitSize(d: nat) | MapOld(d: nat) | ReadWord(d: nat, mapped: nat) | Poll(d: nat) | Remap(d: nat)
    | OpenConstruct(d: nat, mapped: nat, polled: bool)   // inside construct_func with created == false
    // outcomes
    | Created(d: nat) | Opened(d: nat, mapped: nat, polled: bool) | Threw

  /** `userOffset` is ManagedOpenOrCreateUserOffset, `minSize` what construct_func demands, `sizeBits` and
      `offsetBits` the widths of std::size_t and offset_t, `maxTries` MaxCreateOrOpenTries. */
  datatype Config =
    Config(fileBased: bool, minSize: nat, userOffset: nat, sizeBits: nat, offsetBits: nat, maxTries: nat)

  datatype State = State(devices: seq<Device>, linked: Option<nat>, procs: map<nat, Pc>)

  /** The first word is a 32-bit integer, so the user offset is at least its size. */
  predicate ValidConfig(c: Config) {
    4 <= c.userOffset < Pow2(c.sizeBits) && c.offsetBits > 0 && c.maxTries > 0
  }

  function PcOf(s: State, p: nat): Pc {
    if p in s.procs then s.procs[p] else Idle
  }

  predicate Running(pc: Pc) {
    pc != Idle && !pc.Created? && !pc.Opened? && pc != Threw
  }

  predicate Creating(pc: Pc) {
    pc.Truncate? || pc.MapNew? || pc.Cas? || pc.Construct? || pc.Publish? || pc.Corrupt? || pc.Abort?
  }

  predicate Opening(pc: Pc) {
    pc.WaitSize? || pc.MapOld? || pc.ReadWord? || pc.Poll? || pc.Remap? || pc.OpenConstruct?
  }

  /** check_offset_t_size: a size survives the cast to the signed offset_t and back, always when offset_t is as
      wide as std::size_t, else when it is small or so large that the sign bits restore it. */
  predicate OffsetKeeps(c: Config, size: nat) {
    || c.offsetBits >= c.sizeBits
    || (c.offsetBits > 0 && size < Pow2(c.offsetBits - 1))
    || (c.offsetBits > 0 && size + Pow2(c.offsetBits - 1) >= Pow2(c.sizeBits))
  }

  /** The size checks of priv_open_or_create. */
  predicate SizeAccepted(c: Config, size: nat) {
    && c.minSize + c.userOffset < Pow2(c.sizeBits)
    && size >= c.minSize + c.userOffset
    && (c.fileBased ==> OffsetKeeps(c, size))
  }

  // ---------- steps

  function SetPc(s: State, p: nat, pc: Pc): State {
    s.(procs := s.procs[p := pc])
  }

  function SetDevice(s: State, d: nat, dev: Device): State
    requires d < |s.devices|
  {
    s.(devices := s.devices[d := dev])
  }

  function BeginNext(c: Config, s: State, p: nat, mode: Mode, size: nat): State {
    SetPc(s, p, if mode == DoOpen then TryOpen(mode, size, 0)
                else if SizeAccepted(c, size) then TryCreate(mode, size, 0) else Threw)
  }

  /** Exclusive creation: a new zero-filled device, empty if file-like, or the already_exists branch. */
  function TryCreateNext(c: Config, s: State, p: nat, pc: Pc, throws: bool): State
    requires pc.TryCreate?
  {
    if throws then SetPc(s, p, Threw)
    else if s.linked == None then
      State(s.devices + [Device(if c.fileBased then 0 else pc.size, Uninitialized, pc.size, p, Fresh, [])],
            Some(|s.devices|), s.procs[p := Truncate(|s.devices|)])
    else if pc.mode == DoCreate || pc.tries + 1 == c.maxTries then SetPc(s, p, Threw)
    else SetPc(s, p, TryOpen(pc.mode, pc.size, pc.tries + 1))
  }

  function TryOpenNext(s: State, p: nat, pc: Pc, throws: bool): State
    requires pc.TryOpen?
  {
    if throws then SetPc(s, p, Threw)
    else if s.linked.Some? then SetPc(s, p, WaitSize(s.linked.value))
    else if pc.mode == DoOpen then SetPc(s, p, Threw)
    else SetPc(s, p, TryCreate(pc.mode, pc.size, pc.tries))
  }

  /** The creator's steps on its device `d`.  `n` chooses how far truncation gets in this step and, when
      the device is cut to one byte, whether the rest of the word is lost (the byte order decides). */
  function CreatorNext(c: Config, s: State, p: nat, pc: Pc, throws: bool, n: nat): State
    requires Creating(pc) && pc.d < |s.devices|
  {
    var d := pc.d;
    var dev := s.devices[d];
    if pc.Truncate? then
      if throws then SetPc(SetDevice(s, d, dev.(phase := Aborted)), p, Abort(d))
      else if !c.fileBased || n >= dev.full then SetPc(SetDevice(s, d, dev.(size := dev.full)), p, MapNew(d))
      else SetDevice(s, d, dev.(size := if n >= dev.size then n else dev.size))
    else if pc.MapNew? then
      if throws then SetPc(SetDevice(s, d, dev.(phase := Aborted)), p, Abort(d)) else SetPc(s, p, Cas(d))
    else if pc.Cas? then
      if dev.word == Uninitialized then
        var dev' := dev.(word := Initializing, phase := Constructing, constructors := dev.constructors + [p]);
        SetPc(SetDevice(s, d, dev'), p, Construct(d))
      else SetPc(SetDevice(s, d, dev.(phase := Aborted)), p, Corrupt(d))
    else if pc.Construct? then
      if throws then SetPc(SetDevice(s, d, dev.(phase := Aborted)), p, Corrupt(d))
      else SetPc(SetDevice(s, d, dev.(phase := Constructed)), p, Publish(d))
    else if pc.Publish? then
      SetPc(SetDevice(s, d, dev.(word := Initialized, phase := Published)), p, Created(d))
    else if pc.Corrupt? then
      SetPc(SetDevice(s, d, dev.(word := Corrupted)), p, Abort(d))
    else if throws || !c.fileBased then SetPc(s, p, Threw)
    else SetPc(SetDevice(s, d, dev.(size := 1, word := if n == 0 then Uninitialized else dev.word)), p, Threw)
  }

  /** The opener's steps on device `d`; a timeout is a throw. */
  function OpenerNext(c: Config, s: State, p: nat, pc: Pc, throws: bool): State
    requires Opening(pc) && pc.d < |s.devices|
  {
    var d := pc.d;
    var dev := s.devices[d];
    SetPc(s, p,
      if throws && !pc.ReadWord? then Threw
      else if pc.WaitSize? then
        if !c.fileBased then MapOld(d) else if dev.size == 0 then pc else if dev.size == 1 then Threw else MapOld(d)
      else if pc.MapOld? then ReadWord(d, dev.size)
      else if pc.ReadWord? then if dev.word == Initialized then OpenConstruct(d, pc.mapped, false) else Poll(d)
      else if pc.Poll? then if dev.word == Initialized then Remap(d) else if dev.word == Corrupted then Threw else pc
      else if pc.Remap? then OpenConstruct(d, dev.size, true)
      else Opened(d, pc.mapped, pc.polled))
  }

  // ---------- runs

  datatype Label =
    | Begin(p: nat, mode: Mode, size: nat)
    | Step(p: nat, throws: bool, n: nat)
    | RemoveName

  ghost predicate Enabled(s: State, l: Label) {
    if l.Begin? then !Running(PcOf(s, l.p))
    else if l.Step? then
      Running(PcOf(s, l.p))
      && (Creating(PcOf(s, l.p)) || Opening(PcOf(s, l.p)) ==> PcOf(s, l.p).d < |s.devices|)
    else true
  }

  ghost function Next(c: Config, s: State, l: Label): State
    requires Enabled(s, l)
  {
    if l.Begin? then BeginNext(c, s, l.p, l.mode, l.size)
    else if l.RemoveName? then s.(linked := None)
    else
      var pc := PcOf(s, l.p);
      if pc.TryCreate? then TryCreateNext(c, s, l.p, pc, l.throws)
      else if pc.TryOpen? then TryOpenNext(s, l.p, pc, l.throws)
      else if Creating(pc) then CreatorNext(c, s, l.p, pc, l.throws, l.n)
      else OpenerNext(c, s, l.p, pc, l.throws)
  }

  ghost predicate IsRun(c: Config, run: seq<State>, labels: seq<Label>) {
    && ValidConfig(c)
    && |run| == |labels| + 1
    && run[0] == State([], None, map[])
    && forall i {:trigger labels[i]} | 0 <= i < |labels| ::
         Enabled(run[i], labels[i]) && run[i + 1] == Next(c, run[i], labels[i])
  }

  // ---------- what every step keeps

  ghost predicate DeviceOk(dev: Device) {
    && dev.full > 1
    && (dev.phase == Fresh ==> dev.word == Uninitialized && dev.constructors == [] && dev.size <= dev.full)
    && (dev.phase == Constructing || dev.phase == Constructed ==> dev.word == Initializing)
    && (dev.phase == Published <==> dev.word == Initialized)
    && (dev.phase == Constructing || dev.phase == Constructed || dev.phase == Published ==>
          dev.size == dev.full && dev.constructors == [dev.creator])
    && (dev.constructors == [] || dev.constructors == [dev.creator])
  }

  ghost predicate ProcOk(c: Config, pc: Pc, p: nat, devices: seq<Device>) {
    && (pc.TryCreate? ==> SizeAccepted(c, pc.size) && pc.tries < c.maxTries && pc.mode != DoOpen)
    && (pc.TryOpen? && pc.mode != DoOpen ==> SizeAccepted(c, pc.size) && pc.tries < c.maxTries)
    && (Creating(pc) || Opening(pc) || pc.Opened? || pc.Created? ==> pc.d < |devices|)
    && (Creating(pc) ==> devices[pc.d].creator == p)
    && (pc.Truncate? || pc.MapNew? || pc.Cas? ==> devices[pc.d].phase == Fresh)
    && (pc.MapNew? || pc.Cas? ==> devices[pc.d].size == devices[pc.d].full)
    && (pc.Construct? ==> devices[pc.d].phase == Constructing)
    && (pc.Publish? ==> devices[pc.d].phase == Constructed)
    && (pc.Corrupt? || pc.Abort? ==> devices[pc.d].phase == Aborted)
    && (pc.Remap? || pc.OpenConstruct? || pc.Opened? || pc.Created? ==> devices[pc.d].phase == Published)
    && ((pc.OpenConstruct? || pc.Opened?) && pc.polled ==> pc.mapped == devices[pc.d].full)
  }

  ghost predicate Inv(c: Config, s: State) {
    && (s.linked.Some? ==> s.linked.value < |s.devices|)
    && (forall d | 0 <= d < |s.devices| :: DeviceOk(s.devices[d]))
    && (forall p | p in s.procs :: ProcOk(c, s.procs[p], p, s.devices))
  }

  /** How one step may change a device: its creator and size request never, its phase only forward, and
      the phases Aborted and Published not at all. */
  ghost predicate DeviceMoves(dev: Device, dev': Device) {
    && dev'.full == dev.full && dev'.creator == dev.creator
    && (dev.phase == Aborted ==> dev'.phase == Aborted)
    && (dev.phase == Published ==> dev' == dev)
  }

  /** A process moves its own device and position; no other process can tell. */
  lemma DeviceAndProcMove(c: Config, s: State, p: nat, d: nat, dev: Device, pc: Pc)
    requires Inv(c, s) && d < |s.devices| && s.devices[d].creator == p
    requires s.devices[d].phase != Published && DeviceMoves(s.devices[d], dev)
    requires DeviceOk(dev) && ProcOk(c, pc, p, s.devices[d := dev])
    ensures Inv(c, SetPc(SetDevice(s, d, dev), p, pc))
  {
    var devices' := s.devices[d := dev];
    forall q | q in s.procs && q != p ensures ProcOk(c, s.procs[q], q, devices') {
      assert ProcOk(c, s.procs[q], q, s.devices);
    }
  }

  lemma ProcMoves(c: Config, s: State, p: nat, pc: Pc)
    requires Inv(c, s) && ProcOk(c, pc, p, s.devices)
    ensures Inv(c, SetPc(s, p, pc))
  {
  }

  lemma TryCreateInv(c: Config, s: State, p: nat, pc: Pc, throws: bool)
    requires ValidConfig(c) && Inv(c, s) && pc == PcOf(s, p) && pc.TryCreate?
    ensures Inv(c, TryCreateNext(c, s, p, pc, throws))
  {
    assert ProcOk(c, pc, p, s.devices);
    if throws || s.linked.Some? {
      ProcMoves(c, s, p, PcOf(TryCreateNext(c, s, p, pc, throws), p));
    } else {
      var devices' := TryCreateNext(c, s, p, pc, throws).devices;
      forall q | q in s.procs ensures ProcOk(c, s.procs[q], q, devices') || q == p {
        assert ProcOk(c, s.procs[q], q, s.devices);
      }
    }
  }

  lemma CreatorInv(c: Config, s: State, p: nat, pc: Pc, throws: bool, n: nat)
    requires Inv(c, s) && pc == PcOf(s, p) && Creating(pc) && pc.d < |s.devices|
    ensures Inv(c, CreatorNext(c, s, p, pc, throws, n))
    ensures DeviceMoves(s.devices[pc.d], CreatorNext(c, s, p, pc, throws, n).devices[pc.d])
  {
    var s' := CreatorNext(c, s, p, pc, throws, n);
    assert ProcOk(c, pc, p, s.devices);
    assert DeviceOk(s.devices[pc.d]);
    assert s'.devices == s.devices[pc.d := s'.devices[pc.d]];
    DeviceAndProcMove(c, s, p, pc.d, s'.devices[pc.d], PcOf(s', p));
    assert s'.procs == s.procs[p := PcOf(s', p)];
  }

  lemma OpenerInv(c: Config, s: State, p: nat, pc: Pc, throws: bool)
    requires Inv(c, s) && pc == PcOf(s, p) && Opening(pc) && pc.d < |s.devices|
    ensures Inv(c, OpenerNext(c, s, p, pc, throws))
  {
    assert ProcOk(c, pc, p, s.devices);
    assert DeviceOk(s.devices[pc.d]);
    ProcMoves(c, s, p, PcOf(OpenerNext(c, s, p, pc, throws), p));
  }

  lemma StepInv(c: Config, s: State, l: Label)
    requires ValidConfig(c) && Inv(c, s) && Enabled(s, l)
    ensures Inv(c, Next(c, s, l))
  {
    if l.Step? {
      var pc := PcOf(s, l.p);
      assert ProcOk(c, pc, l.p, s.devices);
      if pc.TryCreate? {
        TryCreateInv(c, s, l.p, pc, l.throws);
      } else if pc.TryOpen? {
        ProcMoves(c, s, l.p, PcOf(TryOpenNext(s, l.p, pc, l.throws), l.p));
      } else if Creating(pc) {
        CreatorInv(c, s, l.p, pc, l.throws, l.n);
      } else {
        OpenerInv(c, s, l.p, pc, l.throws);
      }
    } else if l.Begin? {
      ProcMoves(c, s, l.p, PcOf(BeginNext(c, s, l.p, l.mode, l.size), l.p));
    }
  }

  /** Devices are never dropped, and only their creators change them. */
  lemma StepMoves(c: Config, s: State, l: Label)
    requires Inv(c, s) && Enabled(s, l)
    ensures |s.devices| <= |Next(c, s, l).devices|
    ensures forall d | 0 <= d < |s.devices| :: DeviceMoves(s.devices[d], Next(c, s, l).devices[d])
  {
    if l.Step? && Creating(PcOf(s, l.p)) {
      CreatorInv(c, s, l.p, PcOf(s, l.p), l.throws, l.n);
    }
  }

  lemma {:induction false} RunInv(c: Config, run: seq<State>, labels: seq<Label>, i: nat)
    requires IsRun(c, run, labels) && i < |run|
    ensures Inv(c, run[i])
  {
    if i > 0 {
      RunInv(c, run, labels, i - 1);
      StepInv(c, run[i - 1], labels[i - 1]);
    }
  }

  lemma RunStep(c: Config, run: seq<State>, labels: seq<Label>, i: nat)
    requires IsRun(c, run, labels) && i < |labels|
    ensures |run[i].devices| <= |run[i + 1].devices|
    ensures forall d | 0 <= d < |run[i].devices| :: DeviceMoves(run[i].devices[d], run[i + 1].devices[d])
  {
    RunInv(c, run, labels, i);
    StepMoves(c, run[i], labels[i]);
  }

  /** Devices are never dropped, and Aborted and Published are final. */
  lemma {:induction false} DeviceHistory(c: Config, run: seq<State>, labels: seq<Label>, i: nat, j: nat, d: nat)
    requires IsRun(c, run, labels) && i <= j < |run| && d < |run[i].devices|
    ensures d < |run[j].devices| && DeviceMoves(run[i].devices[d], run[j].devices[d])
    decreases j
  {
    if i < j {
      DeviceHistory(c, run, labels, i, j - 1, d);
      RunStep(c, run, labels, j - 1);
    }
  }

  // ---------- theorems

  /** Step `j` of the run is the return of construct_func(..., true) of the creator of device `d`. */
  ghost predicate ConstructReturns(run: seq<State>, labels: seq<Label>, j: nat, d: nat) {
    && j < |labels| && j < |run| && d < |run[j].devices|
    && labels[j].Step? && !labels[j].throws
    && PcOf(run[j], labels[j].p) == Construct(d) && run[j].devices[d].creator == labels[j].p
  }

  predicate Done(phase: Phase) {
    phase == Constructed || phase == Published
  }

  lemma BecomesDone(c: Config, s: State, l: Label, d: nat)
    requires Inv(c, s) && Enabled(s, l) && d < |Next(c, s, l).devices| && Done(Next(c, s, l).devices[d].phase)
    ensures d < |s.devices|
    ensures Done(s.devices[d].phase)
            || (l.Step? && !l.throws && PcOf(s, l.p) == Construct(d) && s.devices[d].creator == l.p)
  {
    if l.Step? && l.p in s.procs {
      assert ProcOk(c, s.procs[l.p], l.p, s.devices);
    }
  }

  lemma {:induction false} DoneHistory(c: Config, run: seq<State>, labels: seq<Label>, i: nat, d: nat) returns (j: nat)
    requires IsRun(c, run, labels) && i < |run| && d < |run[i].devices| && Done(run[i].devices[d].phase)
    ensures j < i && ConstructReturns(run, labels, j, d)
    decreases i
  {
    RunInv(c, run, labels, i - 1);
    BecomesDone(c, run[i - 1], labels[i - 1], d);
    if Done(run[i - 1].devices[d].phase) {
      j := DoneHistory(c, run, labels, i - 1, d);
    } else {
      j := i - 1;
    }
  }

  /** A process reaches construct_func(..., false) on a device only after construct_func(..., true) of the
      creator of that device returned without throwing. */
  lemma OpenAfterConstruct(c: Config, run: seq<State>, labels: seq<Label>, i: nat, p: nat)
    requires IsRun(c, run, labels) && i < |run| && (PcOf(run[i], p).OpenConstruct? || PcOf(run[i], p).Opened?)
    ensures exists j :: 0 <= j < i && ConstructReturns(run, labels, j, PcOf(run[i], p).d)
  {
    RunInv(c, run, labels, i);
    assert ProcOk(c, run[i].procs[p], p, run[i].devices);
    var j := DoneHistory(c, run, labels, i, PcOf(run[i], p).d);
  }

  /** A device whose creation aborted is never opened successfully, before or after. */
  lemma AbortedNeverOpens(c: Config, run: seq<State>, labels: seq<Label>, i: nat, j: nat, p: nat, q: nat)
    requires IsRun(c, run, labels) && i < |run| && j < |run|
    requires PcOf(run[i], p).Abort? || PcOf(run[i], p).Corrupt?
    requires PcOf(run[j], q).OpenConstruct? || PcOf(run[j], q).Opened?
    ensures PcOf(run[i], p).d != PcOf(run[j], q).d
  {
    RunInv(c, run, labels, i);
    RunInv(c, run, labels, j);
    assert ProcOk(c, run[i].procs[p], p, run[i].devices);
    assert ProcOk(c, run[j].procs[q], q, run[j].devices);
    if i <= j {
      DeviceHistory(c, run, labels, i, j, PcOf(run[i], p).d);
    } else {
      DeviceHistory(c, run, labels, j, i, PcOf(run[j], q).d);
    }
  }

  /** At most one process ever runs construct_func(..., true) on a device, its exclusive creator; the CAS of
      a creator finds UninitializedSegment, so the branch that reports a corrupted segment is not taken. */
  lemma OneConstructor(c: Config, run: seq<State>, labels: seq<Label>, i: nat, d: nat, p: nat)
    requires IsRun(c, run, labels) && i < |run| && d < |run[i].devices|
    ensures run[i].devices[d].constructors == [] || run[i].devices[d].constructors == [run[i].devices[d].creator]
    ensures Creating(PcOf(run[i], p)) && PcOf(run[i], p).d == d ==> run[i].devices[d].creator == p
    ensures PcOf(run[i], p) == Cas(d) ==> run[i].devices[d].word == Uninitialized
  {
    RunInv(c, run, labels, i);
    assert DeviceOk(run[i].devices[d]);
    if p in run[i].procs {
      assert ProcOk(c, run[i].procs[p], p, run[i].devices);
    }
  }

  /** An opener that once read a word other than Initialized ends with the creator's full size mapped. */
  lemma PolledSeesFullSize(c: Config, run: seq<State>, labels: seq<Label>, i: nat, p: nat)
    requires IsRun(c, run, labels) && i < |run|
    requires PcOf(run[i], p).Opened? && PcOf(run[i], p).polled
    ensures PcOf(run[i], p).d < |run[i].devices| && PcOf(run[i], p).mapped == run[i].devices[PcOf(run[i], p).d].full
  {
    RunInv(c, run, labels, i);
    assert ProcOk(c, run[i].procs[p], p, run[i].devices);
  }

  // ---------- truncation in one step

  /** Truncation shows in one step: no other process sees a size between nothing and the full size. */
  ghost predicate OneStepTruncation(c: Config, run: seq<State>, labels: seq<Label>) {
    forall i {:trigger labels[i]} | 0 <= i < |labels| && i < |run| :: OneStep(c, run[i], labels[i])
  }

  ghost predicate OneStep(c: Config, s: State, l: Label) {
    l.Step? && PcOf(s, l.p).Truncate? ==>
      l.throws || !c.fileBased || (PcOf(s, l.p).d < |s.devices| && l.n >= s.devices[PcOf(s, l.p).d].full)
  }

  ghost predicate DeviceSize(c: Config, dev: Device) {
    && (dev.phase == Fresh ==> dev.size == dev.full || (c.fileBased && dev.size == 0))
    && (dev.phase == Aborted && !c.fileBased ==> dev.size == dev.full)
  }

  ghost predicate ProcSize(pc: Pc, devices: seq<Device>) {
    (pc.MapOld? || pc.ReadWord? || pc.OpenConstruct? || pc.Opened?) && pc.d < |devices| ==>
      var dev := devices[pc.d];
      dev.phase == Aborted || (if pc.MapOld? then dev.size else pc.mapped) == dev.full
  }

  ghost predicate SizesOk(c: Config, s: State) {
    && (forall d | 0 <= d < |s.devices| :: DeviceSize(c, s.devices[d]))
    && (forall p | p in s.procs :: ProcSize(s.procs[p], s.devices))
  }

  /** A device that reached its full size keeps it unless its creation aborts. */
  lemma DeviceChangesSizes(c: Config, s: State, p: nat, d: nat, dev: Device, pc: Pc)
    requires SizesOk(c, s) && d < |s.devices| && DeviceSize(c, dev) && dev.full == s.devices[d].full
    requires s.devices[d].phase == Aborted ==> dev.phase == Aborted
    requires dev.phase == Aborted || dev.size == dev.full || dev.size == s.devices[d].size
    requires ProcSize(pc, s.devices[d := dev])
    ensures SizesOk(c, SetPc(SetDevice(s, d, dev), p, pc))
  {
    var devices' := s.devices[d := dev];
    forall q | q in s.procs && q != p ensures ProcSize(s.procs[q], devices') {
      assert ProcSize(s.procs[q], s.devices);
    }
  }

  lemma CreatorSizes(c: Config, s: State, p: nat, pc: Pc, throws: bool, n: nat)
    requires Inv(c, s) && SizesOk(c, s) && pc == PcOf(s, p) && Creating(pc) && pc.d < |s.devices|
    requires pc.Truncate? ==> throws || !c.fileBased || n >= s.devices[pc.d].full
    ensures SizesOk(c, CreatorNext(c, s, p, pc, throws, n))
  {
    var s' := CreatorNext(c, s, p, pc, throws, n);
    assert ProcOk(c, pc, p, s.devices);
    assert DeviceOk(s.devices[pc.d]);
    assert DeviceSize(c, s.devices[pc.d]);
    assert s'.devices == s.devices[pc.d := s'.devices[pc.d]];
    DeviceChangesSizes(c, s, p, pc.d, s'.devices[pc.d], PcOf(s', p));
  }

  lemma OpenerSizes(c: Config, s: State, p: nat, pc: Pc, throws: bool)
    requires Inv(c, s) && SizesOk(c, s) && pc == PcOf(s, p) && Opening(pc) && pc.d < |s.devices|
    ensures SizesOk(c, OpenerNext(c, s, p, pc, throws))
  {
    assert ProcOk(c, pc, p, s.devices);
    assert ProcSize(pc, s.devices);
    assert DeviceOk(s.devices[pc.d]);
    assert DeviceSize(c, s.devices[pc.d]);
  }

  lemma StepSizes(c: Config, s: State, l: Label)
    requires Inv(c, s) && SizesOk(c, s) && Enabled(s, l) && OneStep(c, s, l)
    ensures SizesOk(c, Next(c, s, l))
  {
    if l.Step? && Creating(PcOf(s, l.p)) {
      CreatorSizes(c, s, l.p, PcOf(s, l.p), l.throws, l.n);
    } else if l.Step? && Opening(PcOf(s, l.p)) {
      OpenerSizes(c, s, l.p, PcOf(s, l.p), l.throws);
    } else if l.Step? && PcOf(s, l.p).TryCreate? {
      CreateSizes(c, s, l.p, PcOf(s, l.p), l.throws);
    }
  }

  lemma CreateSizes(c: Config, s: State, p: nat, pc: Pc, throws: bool)
    requires Inv(c, s) && SizesOk(c, s) && pc == PcOf(s, p) && pc.TryCreate?
    ensures SizesOk(c, TryCreateNext(c, s, p, pc, throws))
  {
    var devices' := TryCreateNext(c, s, p, pc, throws).devices;
    forall q | q in s.procs ensures ProcSize(s.procs[q], devices') {
      assert ProcSize(s.procs[q], s.devices);
      assert ProcOk(c, s.procs[q], q, s.devices);
    }
  }

  lemma {:induction false} RunSizes(c: Config, run: seq<State>, labels: seq<Label>, i: nat)
    requires IsRun(c, run, labels) && OneStepTruncation(c, run, labels) && i < |run|
    ensures SizesOk(c, run[i])
  {
    if i > 0 {
      RunSizes(c, run, labels, i - 1);
      RunInv(c, run, labels, i - 1);
      StepSizes(c, run[i - 1], labels[i - 1]);
    }
  }

  /** If truncation shows in one step, or the device is not file-like, every successful opener has the
      creator's full size mapped. */
  lemma OneStepSeesFullSize(c: Config, run: seq<State>, labels: seq<Label>, i: nat, p: nat)
    requires IsRun(c, run, labels) && OneStepTruncation(c, run, labels) && i < |run| && PcOf(run[i], p).Opened?
    ensures PcOf(run[i], p).d < |run[i].devices| && PcOf(run[i], p).mapped == run[i].devices[PcOf(run[i], p).d].full
  {
    RunInv(c, run, labels, i);
    RunSizes(c, run, labels, i);
    assert ProcOk(c, run[i].procs[p], p, run[i].devices);
    assert ProcSize(run[i].procs[p], run[i].devices);
  }

  // ---------- where the creator stands

  /** While a device is fresh its creator is truncating, mapping or about to CAS, and truncation of a file-like
      device is not finished until it leaves the truncating step. */
  ghost predicate FreshCreator(c: Config, dev: Device, d: nat, procs: map<nat, Pc>) {
    dev.phase == Fresh ==>
      && dev.creator in procs
      && (procs[dev.creator] == Truncate(d) || procs[dev.creator] == MapNew(d) || procs[dev.creator] == Cas(d))
      && (procs[dev.creator] == Truncate(d) ==> if c.fileBased then dev.size < dev.full else dev.size == dev.full)
  }

  ghost predicate InvFresh(c: Config, s: State) {
    forall d | 0 <= d < |s.devices| :: FreshCreator(c, s.devices[d], d, s.procs)
  }

  /** A process that creates nothing moves. */
  lemma OthersFresh(c: Config, s: State, p: nat, pc: Pc)
    requires InvFresh(c, s) && !Creating(PcOf(s, p))
    ensures InvFresh(c, SetPc(s, p, pc))
  {
    forall d | 0 <= d < |s.devices| ensures FreshCreator(c, s.devices[d], d, s.procs[p := pc]) {
      assert FreshCreator(c, s.devices[d], d, s.procs);
    }
  }

  lemma CreatorFresh(c: Config, s: State, p: nat, pc: Pc, throws: bool, n: nat)
    requires Inv(c, s) && InvFresh(c, s) && pc == PcOf(s, p) && Creating(pc) && pc.d < |s.devices|
    ensures InvFresh(c, CreatorNext(c, s, p, pc, throws, n))
  {
    var s' := CreatorNext(c, s, p, pc, throws, n);
    assert ProcOk(c, pc, p, s.devices);
    assert DeviceOk(s.devices[pc.d]);
    assert FreshCreator(c, s.devices[pc.d], pc.d, s.procs);
    assert s'.devices == s.devices[pc.d := s'.devices[pc.d]] && s'.procs[p := PcOf(s', p)] == s'.procs;
    forall d | 0 <= d < |s.devices| && d != pc.d ensures FreshCreator(c, s.devices[d], d, s'.procs) {
      assert FreshCreator(c, s.devices[d], d, s.procs);
    }
  }

  lemma TryCreateFresh(c: Config, s: State, p: nat, pc: Pc, throws: bool)
    requires Inv(c, s) && InvFresh(c, s) && ValidConfig(c) && pc == PcOf(s, p) && pc.TryCreate?
    ensures InvFresh(c, TryCreateNext(c, s, p, pc, throws))
  {
    assert ProcOk(c, pc, p, s.devices);
    OthersFresh(c, s, p, PcOf(TryCreateNext(c, s, p, pc, throws), p));
  }

  lemma StepFresh(c: Config, s: State, l: Label)
    requires ValidConfig(c) && Inv(c, s) && InvFresh(c, s) && Enabled(s, l)
    ensures InvFresh(c, Next(c, s, l))
  {
    if l.Begin? {
      OthersFresh(c, s, l.p, PcOf(Next(c, s, l), l.p));
    } else if l.Step? {
      var pc := PcOf(s, l.p);
      if pc.TryCreate? {
        TryCreateFresh(c, s, l.p, pc, l.throws);
      } else if Creating(pc) {
        CreatorFresh(c, s, l.p, pc, l.throws, l.n);
      } else {
        OthersFresh(c, s, l.p, PcOf(Next(c, s, l), l.p));
      }
    }
  }

  lemma {:induction false} RunFresh(c: Config, run: seq<State>, labels: seq<Label>, i: nat)
    requires IsRun(c, run, labels) && i < |run|
    ensures InvFresh(c, run[i])
  {
    if i > 0 {
      RunFresh(c, run, labels, i - 1);
      RunInv(c, run, labels, i - 1);
      StepFresh(c, run[i - 1], labels[i - 1]);
    }
  }

  /** A device that is not aborted has its full size exactly when its creator is past truncating it. */
  lemma FullSize(c: Config, s: State, d: nat)
    requires Inv(c, s) && InvFresh(c, s) && d < |s.devices| && s.devices[d].phase != Aborted
    ensures var dev := s.devices[d];
            dev.size == dev.full <==> !(c.fileBased && PcOf(s, dev.creator) == Truncate(d))
  {
    var dev := s.devices[d];
    assert DeviceOk(dev);
    assert FreshCreator(c, dev, d, s.procs);
    if dev.creator in s.procs {
      assert ProcOk(c, s.procs[dev.creator], dev.creator, s.devices);
    }
  }

  // ---------- what an opener maps

  /** Step `j` of the run is process `p` mapping device `d` for the first time, `size` bytes long. */
  ghost predicate MapsAt(run: seq<State>, labels: seq<Label>, j: nat, p: nat, d: nat, size: nat) {
    && j < |labels| && j < |run| && d < |run[j].devices|
    && labels[j].Step? && labels[j].p == p && PcOf(run[j], p) == MapOld(d) && run[j].devices[d].size == size
  }

  predicate FirstMapping(pc: Pc, d: nat, mapped: nat) {
    || pc == ReadWord(d, mapped) || pc == OpenConstruct(d, mapped, false) || pc == Opened(d, mapped, false)
  }

  lemma BecomesMapped(c: Config, s: State, l: Label, p: nat, d: nat, mapped: nat)
    requires Enabled(s, l) && FirstMapping(PcOf(Next(c, s, l), p), d, mapped)
    ensures FirstMapping(PcOf(s, p), d, mapped)
            || (l.Step? && l.p == p && PcOf(s, p) == MapOld(d) && d < |s.devices| && s.devices[d].size == mapped)
  {
  }

  lemma {:induction false} MappedAt(c: Config, run: seq<State>, labels: seq<Label>, i: nat, p: nat, d: nat, mapped: nat)
      returns (j: nat)
    requires IsRun(c, run, labels) && i < |run| && FirstMapping(PcOf(run[i], p), d, mapped)
    ensures j < i && MapsAt(run, labels, j, p, d, mapped)
    decreases i
  {
    BecomesMapped(c, run[i - 1], labels[i - 1], p, d, mapped);
    if FirstMapping(PcOf(run[i - 1], p), d, mapped) {
      j := MappedAt(c, run, labels, i - 1, p, d, mapped);
    } else {
      j := i - 1;
    }
  }

  /** An opener that found Initialized at its first read, and so did not map again, has the creator's full size
      exactly when at the time it mapped the device its creator was not in the middle of truncating a file. */
  lemma MappedSize(c: Config, run: seq<State>, labels: seq<Label>, i: nat, p: nat, d: nat, mapped: nat)
      returns (j: nat)
    requires IsRun(c, run, labels) && i < |run| && PcOf(run[i], p) == Opened(d, mapped, false)
    ensures j < i && MapsAt(run, labels, j, p, d, mapped) && d < |run[i].devices|
    ensures var dev := run[i].devices[d];
            mapped == dev.full <==> !(c.fileBased && PcOf(run[j], dev.creator) == Truncate(d))
  {
    j := MappedAt(c, run, labels, i, p, d, mapped);
    DeviceHistory(c, run, labels, j, i, d);
    RunInv(c, run, labels, i);
    assert ProcOk(c, run[i].procs[p], p, run[i].devices);
    RunInv(c, run, labels, j);
    RunFresh(c, run, labels, j);
    FullSize(c, run[j], d);
  }

  ghost predicate Reaches(c: Config, s: State) {
    exists run, labels :: IsRun(c, run, labels) && run[|run| - 1] == s
  }

  lemma ReachStep(c: Config, s: State, l: Label, s': State)
    requires Reaches(c, s) && Enabled(s, l) && s' == Next(c, s, l)
    ensures Reaches(c, s')
  {
    var run, labels :| IsRun(c, run, labels) && run[|run| - 1] == s;
    var run', labels' := run + [s'], labels + [l];
    assert forall i | 0 <= i < |labels| :: labels'[i] == labels[i];
    assert IsRun(c, run', labels') && run'[|run'| - 1] == s';
  }

  const EXAMPLE := Config(true, 0, 4, 8, 8, 20)

  function Half(): State {
    State([Device(50, Uninitialized, 100, 1, Fresh, [])], Some(0), map[1 := Truncate(0)])
  }

  lemma CreatorTruncatesHalf()
    ensures Reaches(EXAMPLE, Half())
  {
    var s0 := State([], None, map[]);
    assert IsRun(EXAMPLE, [s0], []) && [s0][|[s0]| - 1] == s0;
    var s1 := State([], None, map[1 := TryCreate(DoCreate, 100, 0)]);
    ReachStep(EXAMPLE, s0, Begin(1, DoCreate, 100), s1);
    var s2 := State([Device(0, Uninitialized, 100, 1, Fresh, [])], Some(0), map[1 := Truncate(0)]);
    ReachStep(EXAMPLE, s1, Step(1, false, 0), s2);
    ReachStep(EXAMPLE, s2, Step(1, false, 50), Half());
  }

  lemma OpenerWaitsHalf()
    ensures Reaches(EXAMPLE, SetPc(Half(), 2, WaitSize(0)))
  {
    CreatorTruncatesHalf();
    ReachStep(EXAMPLE, Half(), Begin(2, DoOpen, 0), SetPc(Half(), 2, TryOpen(DoOpen, 0, 0)));
    ReachStep(EXAMPLE, SetPc(Half(), 2, TryOpen(DoOpen, 0, 0)), Step(2, false, 0), SetPc(Half(), 2, WaitSize(0)));
  }

  lemma OpenerMapsHalf()
    ensures Reaches(EXAMPLE, SetPc(Half(), 2, ReadWord(0, 50)))
  {
    OpenerWaitsHalf();
    ReachStep(EXAMPLE, SetPc(Half(), 2, WaitSize(0)), Step(2, false, 0), SetPc(Half(), 2, MapOld(0)));
    ReachStep(EXAMPLE, SetPc(Half(), 2, MapOld(0)), Step(2, false, 0), SetPc(Half(), 2, ReadWord(0, 50)));
  }

  /** The device at full size, the creator at `pc`, and the opener still holding its half mapping. */
  function Later(word: Word, phase: Phase, constructors: seq<nat>, pc: Pc): State {
    State([Device(100, word, 100, 1, phase, constructors)], Some(0), map[1 := pc, 2 := ReadWord(0, 50)])
  }

  lemma CreatorTruncatesAll()
    ensures Reaches(EXAMPLE, Later(Uninitialized, Fresh, [], MapNew(0)))
  {
    OpenerMapsHalf();
    ReachStep(EXAMPLE, SetPc(Half(), 2, ReadWord(0, 50)), Step(1, false, 100),
              Later(Uninitialized, Fresh, [], MapNew(0)));
  }

  lemma CreatorConstructs()
    ensures Reaches(EXAMPLE, Later(Initializing, Constructing, [1], Construct(0)))
  {
    CreatorTruncatesAll();
    var nobody: seq<nat> := [];
    assert nobody + [1] == [1];
    ReachStep(EXAMPLE, Later(Uninitialized, Fresh, [], MapNew(0)), Step(1, false, 0),
              Later(Uninitialized, Fresh, [], Cas(0)));
    ReachStep(EXAMPLE, Later(Uninitialized, Fresh, [], Cas(0)), Step(1, false, 0),
              Later(Initializing, Constructing, [1], Construct(0)));
  }

  lemma CreatorFinishes()
    ensures Reaches(EXAMPLE, Later(Initialized, Published, [1], Created(0)))
  {
    CreatorConstructs();
    ReachStep(EXAMPLE, Later(Initializing, Constructing, [1], Construct(0)), Step(1, false, 0),
              Later(Initializing, Constructed, [1], Publish(0)));
    ReachStep(EXAMPLE, Later(Initializing, Constructed, [1], Publish(0)), Step(1, false, 0),
              Later(Initialized, Published, [1], Created(0)));
  }

  /** When truncation is seen in several steps a successful opener can be left with a partial mapping: it
      maps while the creator is still truncating and reads the word when the creator has published. */
  lemma PartialMappingHappens()
    ensures exists s :: Reaches(EXAMPLE, s) && PcOf(s, 2) == Opened(0, 50, false)
                        && |s.devices| == 1 && s.devices[0].full == 100
  {
    CreatorFinishes();
    var s0 := Later(Initialized, Published, [1], Created(0));
    var s1, s2 := SetPc(s0, 2, OpenConstruct(0, 50, false)), SetPc(s0, 2, Opened(0, 50, false));
    ReachStep(EXAMPLE, s0, Step(2, false, 0), s1);
    ReachStep(EXAMPLE, s1, Step(2, false, 0), s2);
    assert Reaches(EXAMPLE, s2) && PcOf(s2, 2) == Opened(0, 50, false);
  }

  // ---------- the creation loop

  datatype CreateAnswer = CreatedNew | AlreadyExists | CreateError
  datatype OpenAnswer = OpenedOld | NotFound | OpenError
  datatype Outcome = DidCreate | DidOpen | Rethrown | GaveUp

  /** The answers to the attempts before `i` made the loop go round again. */
  ghost predicate WentRound(creates: seq<CreateAnswer>, opens: seq<OpenAnswer>, i: nat)
    requires i <= |creates| && i <= |opens|
  {
    forall j | 0 <= j < i :: creates[j] == AlreadyExists && opens[j] == NotFound
  }

  /** do_create_else_open, given the answers the system gives to successive attempts: it creates exactly
      when the first attempt that ends the loop creates, and gives up after `maxTries` creation attempts. */
  method CreateElseOpen(maxTries: nat, creates: seq<CreateAnswer>, opens: seq<OpenAnswer>)
      returns (outcome: Outcome, attempts: nat)
    requires 0 < maxTries <= |creates| && maxTries <= |opens|
    ensures 0 < attempts <= maxTries && WentRound(creates, opens, attempts - 1)
    ensures outcome == DidCreate <==> creates[attempts - 1] == CreatedNew
    ensures outcome == DidOpen <==>
            creates[attempts - 1] == AlreadyExists && attempts < maxTries && opens[attempts - 1] == OpenedOld
    ensures outcome == GaveUp <==> creates[attempts - 1] == AlreadyExists && attempts == maxTries
  {
    var tries := 0;
    attempts := 0;
    while true
      invariant tries == attempts < maxTries && WentRound(creates, opens, attempts)
      decreases maxTries - tries
    {
      attempts := attempts + 1;
      var answer := creates[attempts - 1];
      if answer == CreatedNew {
        return DidCreate, attempts;
      } else if answer != AlreadyExists {
        return Rethrown, attempts;
      }
      tries := tries + 1;
      if tries == maxTries {
        return GaveUp, attempts;
      }
      if opens[attempts - 1] == OpenedOld {
        return DidOpen, attempts;
      } else if opens[attempts - 1] != NotFound {
        return Rethrown, attempts;
      }
    }
  }

  /** The same bound in the race: a process never has more creation attempts behind it than MaxCreateOrOpenTries. */
  lemma BoundedAttempts(c: Config, run: seq<State>, labels: seq<Label>, i: nat, p: nat)
    requires IsRun(c, run, labels) && i < |run| && (PcOf(run[i], p).TryCreate? || PcOf(run[i], p).TryOpen?)
    ensures PcOf(run[i], p).mode != DoOpen ==> PcOf(run[i], p).tries < c.maxTries
  {
    RunInv(c, run, labels, i);
    assert ProcOk(c, run[i].procs[p], p, run[i].devices);
  }
}
