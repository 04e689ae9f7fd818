/** The semaphore example: a producer and a consumer in two processes share a ring of slots guarded by three
    semaphores (example/comp_doc_anonymous_semaphoreA.cpp, example/comp_doc_anonymous_semaphoreB.cpp,
    example/doc_anonymous_semaphore_shared_data.hpp), for any ring capacity and any messages. */
module BoundedBuffer {
  import opened Words

  /** Where a loop body stands: at its first wait, at the wait on the mutex, at the access to the ring, at
      the post of the mutex, at the last post. */
  datatype Pc = WaitSlot | WaitMutex | Access | PostMutex | PostSlot

  datatype Process = Process(pc: Pc, i: nat)

  datatype Semaphores = Semaphores(mutex: nat, nempty: nat, nstored: nat)

  datatype State = State(items: seq<int>, sems: Semaphores, p: Process, c: Process, out: seq<int>)

  function Init(items: seq<int>): State {
    State(items, Semaphores(1, |items|, 0), Process(WaitSlot, 0), Process(WaitSlot, 0), [])
  }

  datatype Side = Producer | Consumer

  function Advanced(x: Process): Process {
    match x.pc
    case WaitSlot => x.(pc := WaitMutex)
    case WaitMutex => x.(pc := Access)
    case Access => x.(pc := PostMutex)
    case PostMutex => x.(pc := PostSlot)
    case PostSlot => Process(WaitSlot, x.i + 1)
  }

  /** The side has a step to make: it is not done, and not blocked in a wait. */
  predicate Enabled(s: State, msgs: seq<int>, side: Side) {
    var x := if side == Producer then s.p else s.c;
    && x.i < |msgs|
    && (x.pc == WaitSlot ==> (if side == Producer then s.sems.nempty else s.sems.nstored) > 0)
    && (x.pc == WaitMutex ==> s.sems.mutex > 0)
  }

  function ProducerNext(s: State, msgs: seq<int>): State
    requires Enabled(s, msgs, Producer) && |s.items| > 0
  {
    var t := s.(p := Advanced(s.p));
    match s.p.pc
    case WaitSlot => t.(sems := s.sems.(nempty := s.sems.nempty - 1))
    case WaitMutex => t.(sems := s.sems.(mutex := s.sems.mutex - 1))
    case Access => t.(items := s.items[s.p.i % |s.items| := msgs[s.p.i]])
    case PostMutex => t.(sems := s.sems.(mutex := s.sems.mutex + 1))
    case PostSlot => t.(sems := s.sems.(nstored := s.sems.nstored + 1))
  }

  function ConsumerNext(s: State, msgs: seq<int>): State
    requires Enabled(s, msgs, Consumer) && |s.items| > 0
  {
    var t := s.(c := Advanced(s.c));
    match s.c.pc
    case WaitSlot => t.(sems := s.sems.(nstored := s.sems.nstored - 1))
    case WaitMutex => t.(sems := s.sems.(mutex := s.sems.mutex - 1))
    case Access => t.(out := s.out + [s.items[s.c.i % |s.items|]])
    case PostMutex => t.(sems := s.sems.(mutex := s.sems.mutex + 1))
    case PostSlot => t.(sems := s.sems.(nempty := s.sems.nempty + 1))
  }

  /** One turn of a schedule: the side makes its next step, or stays blocked. */
  function Next(s: State, msgs: seq<int>, side: Side): State
    requires |s.items| > 0
  {
    if !Enabled(s, msgs, side) then s
    else if side == Producer then ProducerNext(s, msgs) else ConsumerNext(s, msgs)
  }

  // ---------- the invariant

  predicate Inside(x: Process) {
    x.pc == Access || x.pc == PostMutex
  }

  /** How many messages the process has written to, or read from, the ring. */
  function Done(x: Process): nat {
    if x.pc == PostMutex || x.pc == PostSlot then x.i + 1 else x.i
  }

  /** How many times the process has passed its first wait. */
  function Begun(x: Process): nat {
    if x.pc == WaitSlot then x.i else x.i + 1
  }

  function Bit(b: bool): nat {
    if b then 1 else 0
  }

  /** The semaphores count what they should. */
  predicate Counted(s: State) {
    && s.sems.mutex + Bit(Inside(s.p)) + Bit(Inside(s.c)) == 1
    && s.sems.nempty + Begun(s.p) == |s.items| + s.c.i
    && s.sems.nstored + Begun(s.c) == s.p.i
  }

  /** The ring holds the messages written and not yet read, and those read were the first ones. */
  predicate Delivered(s: State, msgs: seq<int>)
    requires |s.items| > 0
  {
    && Done(s.c) <= Done(s.p) <= |msgs| && s.out == msgs[..Done(s.c)]
    && forall k | Done(s.c) <= k < Done(s.p) :: s.items[Slot(k, |s.items|)] == msgs[k]
  }

  function Slot(k: int, n: int): (r: int)
    requires n > 0
    ensures 0 <= r < n
  {
    k % n
  }

  predicate Inv(s: State, msgs: seq<int>) {
    && |s.items| > 0 && Counted(s) && Delivered(s, msgs)
    && s.p.i <= |msgs| && (s.p.i == |msgs| ==> s.p.pc == WaitSlot)
    && s.c.i <= |msgs| && (s.c.i == |msgs| ==> s.c.pc == WaitSlot)
  }

  lemma DistinctSlots(a: int, b: int, n: int)
    requires n > 0 && b < a < b + n
    ensures Slot(a, n) != Slot(b, n)
  {
    var qa, qb := a / n, b / n;
    assert a == n * qa + a % n && b == n * qb + b % n;
    MulMonotone(n, if qa > qb then qb + 1 else qa, if qa > qb then qa else qb);
  }

  /** No unread slot is overwritten: when the producer is about to write, its slot holds no message that the
      consumer has still to read. */
  lemma NoOverwrite(s: State, msgs: seq<int>, k: int)
    requires Inv(s, msgs) && s.p.pc == Access && Done(s.c) <= k < Done(s.p)
    ensures Slot(k, |s.items|) != Slot(s.p.i, |s.items|)
  {
    DistinctSlots(s.p.i, k, |s.items|);
  }

  lemma ProducerInv(s: State, msgs: seq<int>)
    requires Inv(s, msgs) && Enabled(s, msgs, Producer)
    ensures Inv(ProducerNext(s, msgs), msgs)
  {
    if s.p.pc == Access {
      forall k | Done(s.c) <= k < Done(s.p) ensures Slot(k, |s.items|) != Slot(s.p.i, |s.items|) {
        NoOverwrite(s, msgs, k);
      }
    }
  }

  lemma ConsumerInv(s: State, msgs: seq<int>)
    requires Inv(s, msgs) && Enabled(s, msgs, Consumer)
    ensures Inv(ConsumerNext(s, msgs), msgs)
  {
    if s.c.pc == Access {
      assert s.items[Slot(s.c.i, |s.items|)] == msgs[s.c.i];
    }
  }

  // ---------- runs

  function Run(s: State, msgs: seq<int>, schedule: seq<Side>): (t: State)
    requires |s.items| > 0
    ensures |t.items| > 0
  {
    if schedule == [] then s
    else Next(Run(s, msgs, schedule[..|schedule| - 1]), msgs, schedule[|schedule| - 1])
  }

  lemma {:induction false} RunInv(items: seq<int>, msgs: seq<int>, schedule: seq<Side>)
    requires |items| > 0
    ensures Inv(Run(Init(items), msgs, schedule), msgs)
  {
    if schedule != [] {
      var front, side := schedule[..|schedule| - 1], schedule[|schedule| - 1];
      RunInv(items, msgs, front);
      var s := Run(Init(items), msgs, front);
      if Enabled(s, msgs, side) {
        if side == Producer {
          ProducerInv(s, msgs);
        } else {
          ConsumerInv(s, msgs);
        }
      }
    }
  }

  /** For every ring, every messages and every interleaving: what was extracted is a prefix of what was to be
      inserted, at most one side is inside the mutex, and the values of the semaphores stay within bounds. */
  lemma Correct(items: seq<int>, msgs: seq<int>, schedule: seq<Side>)
    requires |items| > 0
    ensures var s := Run(Init(items), msgs, schedule);
            && |s.out| <= |msgs| && s.out == msgs[..|s.out|]
            && !(Inside(s.p) && Inside(s.c))
            && s.sems.mutex <= 1 && s.sems.nempty + s.sems.nstored <= |items|
  {
    RunInv(items, msgs, schedule);
    RunItems(Init(items), msgs, schedule);
  }

  lemma {:induction false} RunItems(s: State, msgs: seq<int>, schedule: seq<Side>)
    requires |s.items| > 0
    ensures |Run(s, msgs, schedule).items| == |s.items|
  {
    if schedule != [] {
      RunItems(s, msgs, schedule[..|schedule| - 1]);
    }
  }

  /** No deadlock: when neither side can move, every message has been delivered and both loops have ended. */
  lemma NoDeadlock(items: seq<int>, msgs: seq<int>, schedule: seq<Side>)
    requires |items| > 0
    requires var s := Run(Init(items), msgs, schedule); !Enabled(s, msgs, Producer) && !Enabled(s, msgs, Consumer)
    ensures var s := Run(Init(items), msgs, schedule);
            s.out == msgs && s.p.i == |msgs| && s.c.i == |msgs| && s.sems == Semaphores(1, |items|, 0)
  {
    RunInv(items, msgs, schedule);
    RunItems(Init(items), msgs, schedule);
  }

  /** Steps a process has made: five a turn. */
  function Steps(x: Process): nat {
    5 * x.i + match x.pc
              case WaitSlot => 0
              case WaitMutex => 1
              case Access => 2
              case PostMutex => 3
              case PostSlot => 4
  }

  /** How many turns of a schedule were not spent waiting. */
  function Moves(s: State, msgs: seq<int>, schedule: seq<Side>): nat
    requires |s.items| > 0
  {
    if schedule == [] then 0
    else
      var front := schedule[..|schedule| - 1];
      Moves(s, msgs, front) + Bit(Enabled(Run(s, msgs, front), msgs, schedule[|schedule| - 1]))
  }

  lemma {:induction false} MovesAre(items: seq<int>, msgs: seq<int>, schedule: seq<Side>)
    requires |items| > 0
    ensures var s := Run(Init(items), msgs, schedule); Moves(Init(items), msgs, schedule) == Steps(s.p) + Steps(s.c)
  {
    if schedule != [] {
      MovesAre(items, msgs, schedule[..|schedule| - 1]);
    }
  }

  /** Every run makes at most ten moves a message, and one that makes them all has delivered every message. */
  lemma Delivers(items: seq<int>, msgs: seq<int>, schedule: seq<Side>)
    requires |items| > 0
    ensures Moves(Init(items), msgs, schedule) <= 10 * |msgs|
    ensures Moves(Init(items), msgs, schedule) == 10 * |msgs| <==>
            var s := Run(Init(items), msgs, schedule); s.p.i == |msgs| && s.c.i == |msgs|
    ensures Moves(Init(items), msgs, schedule) == 10 * |msgs| ==> Run(Init(items), msgs, schedule).out == msgs
  {
    MovesAre(items, msgs, schedule);
    RunInv(items, msgs, schedule);
  }

  // ---------- the shared memory

  /** shared_memory_buffer, with the local state of both loops. */
  class SharedBuffer {
    const items: array<int>
    const msgs: seq<int>
    var sems: Semaphores
    var p: Process
    var c: Process
    var extracted: seq<int>

    function Now(): State
      reads this, items
    {
      State(items[..], sems, p, c, extracted)
    }

    ghost predicate Valid()
      reads this, items
    {
      Inv(Now(), msgs)
    }

    constructor (items: array<int>, msgs: seq<int>)
      requires items.Length > 0
      ensures Valid() && this.items == items && this.msgs == msgs && Now() == Init(items[..])
    {
      this.items, this.msgs, extracted := items, msgs, [];
      sems, p, c := Semaphores(1, items.Length, 0), Process(WaitSlot, 0), Process(WaitSlot, 0);
    }

    /** The next statement of the producer's loop, if it does not block. */
    method ProducerStep()
      requires Valid()
      modifies this`sems, this`p, items
      ensures Valid() && Now() == Next(old(Now()), msgs, Producer)
    {
      if Enabled(Now(), msgs, Producer) {
        ProducerInv(Now(), msgs);
        ProducerMove();
      }
    }

    method ProducerMove()
      requires items.Length > 0 && Enabled(Now(), msgs, Producer)
      modifies this`sems, this`p, items
      ensures Now() == ProducerNext(old(Now()), msgs)
    {
      match p.pc {
        case WaitSlot => sems := sems.(nempty := sems.nempty - 1);
        case WaitMutex => sems := sems.(mutex := sems.mutex - 1);
        case Access => items[p.i % items.Length] := msgs[p.i];
        case PostMutex => sems := sems.(mutex := sems.mutex + 1);
        case PostSlot => sems := sems.(nstored := sems.nstored + 1);
      }
      p := Advanced(p);
    }

    /** The next statement of the consumer's loop, if it does not block. */
    method ConsumerStep()
      requires Valid()
      modifies this`sems, this`c, this`extracted
      ensures Valid() && Now() == Next(old(Now()), msgs, Consumer)
    {
      if Enabled(Now(), msgs, Consumer) {
        ConsumerInv(Now(), msgs);
        ConsumerMove();
      }
    }

    method ConsumerMove()
      requires items.Length > 0 && Enabled(Now(), msgs, Consumer)
      modifies this`sems, this`c, this`extracted
      ensures Now() == ConsumerNext(old(Now()), msgs)
    {
      match c.pc {
        case WaitSlot => sems := sems.(nstored := sems.nstored - 1);
        case WaitMutex => sems := sems.(mutex := sems.mutex - 1);
        case Access => extracted := extracted + [items[c.i % items.Length]];
        case PostMutex => sems := sems.(mutex := sems.mutex + 1);
        case PostSlot => sems := sems.(nempty := sems.nempty + 1);
      }
      c := Advanced(c);
    }
  }
}
