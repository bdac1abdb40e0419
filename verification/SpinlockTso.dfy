/** The spinlock of src/drivers/atomic.c on x86-TSO: every CPU has a FIFO store buffer, its loads see
    its own buffered stores first, buffered stores reach memory one at a time at any moment, and locked
    instructions and mfence wait for the buffer to be empty.  Any number of CPUs run the lock code in
    any interleaving. */
module SpinlockTso {
  type Addr = nat
  type Value = nat
  type Memory = map<Addr, Value>

  /** Where the lock word lives. */
  const LOCK: Addr := 0

  datatype Store = Store(addr: Addr, value: Value)

  /** Where a CPU stands in the lock code. */
  datatype Phase =
    | Outside    // not using the lock
    | Trying     // in acquire, before the compare-exchange
    | Spinning   // in acquire, in the inner loop that waits for the lock word to read zero
    | TryingOnce // in try_acquire, before the compare-exchange
    | Fencing    // the compare-exchange succeeded; its fence is next
    | Inside     // in the critical section
    | Releasing  // in release, past its fence; the store of zero is next

  datatype Cpu = Cpu(phase: Phase, buffer: seq<Store>)

  /** `latest` is not part of the machine: it records, for each address the lock protects, the last
      value stored by any critical section, in the order the stores executed. */
  datatype State = State(cpus: seq<Cpu>, memory: Memory, latest: Memory)

  datatype Action =
    | CallAcquire
    | CallTryAcquire
    | CompareExchange
    | SpinLoad
    | AcquireFence
    | Write(addr: Addr, value: Value)
    | ReleaseFence
    | ReleaseStore
    | Drain

  datatype Event = Event(cpu: nat, action: Action)

  function Get(m: Memory, a: Addr): Value {
    if a in m then m[a] else 0
  }

  /** What a load sees: the newest buffered store to the address, or else memory. */
  function View(buffer: seq<Store>, m: Memory, a: Addr): Value {
    if buffer == [] then Get(m, a)
    else
      var newest := buffer[|buffer| - 1];
      if newest.addr == a then newest.value else View(buffer[..|buffer| - 1], m, a)
  }

  /** A store may be made by any CPU at any time, with the two restrictions a lock user accepts: the
      lock word is left to the lock code, and the protected addresses are written only inside. */
  predicate Enabled(s: State, e: Event, guarded: set<Addr>) {
    && e.cpu < |s.cpus|
    && var c := s.cpus[e.cpu];
    match e.action
    case CallAcquire => c.phase == Outside
    case CallTryAcquire => c.phase == Outside
    case CompareExchange => (c.phase == Trying || c.phase == TryingOnce) && c.buffer == []
    case SpinLoad => c.phase == Spinning
    case AcquireFence => c.phase == Fencing && c.buffer == []
    case Write(a, _) => a != LOCK && (c.phase == Inside || (c.phase == Outside && a !in guarded))
    case ReleaseFence => c.phase == Inside && c.buffer == []
    case ReleaseStore => c.phase == Releasing
    case Drain => c.buffer != []
  }

  function Next(s: State, e: Event, guarded: set<Addr>): State
    requires Enabled(s, e, guarded)
  {
    var c := s.cpus[e.cpu];
    match e.action
    case CallAcquire => Moved(s, e.cpu, c.(phase := Trying))
    case CallTryAcquire => Moved(s, e.cpu, c.(phase := TryingOnce))
    case CompareExchange =>
      if Get(s.memory, LOCK) == 0 then
        Moved(s, e.cpu, c.(phase := Fencing)).(memory := s.memory[LOCK := 1])
      else
        Moved(s, e.cpu, c.(phase := if c.phase == Trying then Spinning else Outside))
    case SpinLoad =>
      if View(c.buffer, s.memory, LOCK) == 0 then Moved(s, e.cpu, c.(phase := Trying)) else s
    case AcquireFence => Moved(s, e.cpu, c.(phase := Inside))
    case Write(a, v) =>
      Moved(s, e.cpu, c.(buffer := c.buffer + [Store(a, v)]))
        .(latest := if a in guarded then s.latest[a := v] else s.latest)
    case ReleaseFence => Moved(s, e.cpu, c.(phase := Releasing))
    case ReleaseStore => Moved(s, e.cpu, Cpu(Outside, c.buffer + [Store(LOCK, 0)]))
    case Drain =>
      Moved(s, e.cpu, c.(buffer := c.buffer[1..]))
        .(memory := s.memory[c.buffer[0].addr := c.buffer[0].value])
  }

  function Moved(s: State, i: nat, c: Cpu): State
    requires i < |s.cpus|
  {
    s.(cpus := s.cpus[i := c])
  }

  /** A fresh lock: nobody is using it and nothing is buffered. */
  predicate Initial(s: State, guarded: set<Addr>) {
    && LOCK !in guarded
    && Get(s.memory, LOCK) == 0
    && (forall i :: 0 <= i < |s.cpus| ==> s.cpus[i] == Cpu(Outside, []))
    && s.latest == s.memory
  }

  predicate Runs(s: State, events: seq<Event>, guarded: set<Addr>)
    decreases |events|
  {
    events == [] ||
    (Enabled(s, events[0], guarded) && Runs(Next(s, events[0], guarded), events[1..], guarded))
  }

  function Final(s: State, events: seq<Event>, guarded: set<Addr>): State
    requires Runs(s, events, guarded)
    decreases |events|
  {
    if events == [] then s else Final(Next(s, events[0], guarded), events[1..], guarded)
  }

  // ---------- The invariant ----------

  predicate Holds(c: Cpu) {
    c.phase in {Fencing, Inside, Releasing}
  }

  /** A releasing store is still on its way to memory. */
  predicate Pending(c: Cpu) {
    exists i :: 0 <= i < |c.buffer| && c.buffer[i].addr == LOCK
  }

  predicate Token(c: Cpu) {
    Holds(c) || Pending(c)
  }

  /** What holds of one CPU on its own. */
  predicate CpuInv(c: Cpu, guarded: set<Addr>) {
    && (forall i :: 0 <= i < |c.buffer| && c.buffer[i].addr == LOCK ==> c.buffer[i].value == 0)
    && (forall i, j :: 0 <= i < j < |c.buffer| && c.buffer[i].addr == LOCK ==> c.buffer[j].addr != LOCK)
    && (Holds(c) ==> !Pending(c))
    && (c.phase in {Fencing, Releasing} ==> c.buffer == [])
    && (forall i :: 0 <= i < |c.buffer| && c.buffer[i].addr in guarded ==> c.phase == Inside)
  }

  predicate OneToken(s: State) {
    forall i, j :: 0 <= i < j < |s.cpus| ==> !(Token(s.cpus[i]) && Token(s.cpus[j]))
  }

  /** The lock word in memory is one exactly while some CPU holds the lock or its release is pending. */
  predicate LockWord(s: State) {
    && Get(s.memory, LOCK) <= 1
    && (Get(s.memory, LOCK) == 1 <==> exists i :: 0 <= i < |s.cpus| && Token(s.cpus[i]))
  }

  /** The holder sees the latest protected values; with no holder they are all in memory. */
  predicate Coherent(s: State, guarded: set<Addr>) {
    forall a :: a in guarded ==>
      && (forall i :: 0 <= i < |s.cpus| && Holds(s.cpus[i]) ==>
            View(s.cpus[i].buffer, s.memory, a) == Get(s.latest, a))
      && ((forall i :: 0 <= i < |s.cpus| ==> !Holds(s.cpus[i])) ==> Get(s.memory, a) == Get(s.latest, a))
  }

  predicate Inv(s: State, guarded: set<Addr>) {
    && LOCK !in guarded
    && (forall i :: 0 <= i < |s.cpus| ==> CpuInv(s.cpus[i], guarded))
    && OneToken(s)
    && LockWord(s)
    && Coherent(s, guarded)
  }

  // ---------- Store buffers ----------

  lemma {:induction false} ViewMissing(buffer: seq<Store>, m: Memory, a: Addr)
    requires forall i :: 0 <= i < |buffer| ==> buffer[i].addr != a
    ensures View(buffer, m, a) == Get(m, a)
  {
    if buffer != [] {
      ViewMissing(buffer[..|buffer| - 1], m, a);
    }
  }

  /** Draining the oldest store does not change what its own CPU sees. */
  lemma {:induction false} ViewDrained(buffer: seq<Store>, m: Memory, a: Addr)
    requires buffer != []
    ensures View(buffer[1..], m[buffer[0].addr := buffer[0].value], a) == View(buffer, m, a)
  {
    if |buffer| == 1 {
    } else {
      ViewDrained(buffer[..|buffer| - 1], m, a);
      assert buffer[1..][..|buffer| - 2] == buffer[..|buffer| - 1][1..];
    }
  }

  // ---------- Every event keeps the invariant ----------

  lemma InitialInv(s: State, guarded: set<Addr>)
    requires Initial(s, guarded)
    ensures Inv(s, guarded)
  {}

  /** A move that changes neither the buffer nor whether the CPU holds the lock. */
  lemma QuietMove(s: State, i: nat, c: Cpu, guarded: set<Addr>)
    requires Inv(s, guarded) && i < |s.cpus|
    requires c.buffer == s.cpus[i].buffer && (Holds(c) <==> Holds(s.cpus[i])) && CpuInv(c, guarded)
    ensures Inv(Moved(s, i, c), guarded)
  {
    hide View;
    var t := Moved(s, i, c);
    assert forall j :: 0 <= j < |s.cpus| ==> (Token(t.cpus[j]) <==> Token(s.cpus[j]));
  }

  lemma AcquireMove(s: State, i: nat, c: Cpu, guarded: set<Addr>)
    requires Inv(s, guarded) && i < |s.cpus|
    requires Get(s.memory, LOCK) == 0 && s.cpus[i].buffer == [] && c == Cpu(Fencing, [])
    ensures Inv(Moved(s, i, c).(memory := s.memory[LOCK := 1]), guarded)
  {
    var t := Moved(s, i, c).(memory := s.memory[LOCK := 1]);
    assert Token(t.cpus[i]);
  }

  lemma WriteMove(s: State, e: Event, guarded: set<Addr>)
    requires Inv(s, guarded) && Enabled(s, e, guarded) && e.action.Write?
    ensures Inv(Next(s, e, guarded), guarded)
  {
    var c, t := s.cpus[e.cpu], Next(s, e, guarded);
    var d := t.cpus[e.cpu];
    assert d.buffer[..|c.buffer|] == c.buffer;
    assert Pending(d) <==> Pending(c) by {
      assert forall k :: 0 <= k < |c.buffer| ==> d.buffer[k] == c.buffer[k];
    }
    assert forall j :: 0 <= j < |s.cpus| ==> (Token(t.cpus[j]) <==> Token(s.cpus[j]));
    assert CpuInv(d, guarded);
    if e.action.addr in guarded {
      assert Token(c);
    }
  }

  lemma ReleaseMove(s: State, e: Event, guarded: set<Addr>)
    requires Inv(s, guarded) && Enabled(s, e, guarded) && e.action.ReleaseStore?
    ensures Inv(Next(s, e, guarded), guarded)
  {
    var c, t := s.cpus[e.cpu], Next(s, e, guarded);
    assert Token(c);
    assert t.cpus[e.cpu].buffer[0].addr == LOCK;
    assert Token(t.cpus[e.cpu]);
  }

  lemma {:induction false} ViewElsewhere(buffer: seq<Store>, m: Memory, n: Memory, a: Addr)
    requires Get(m, a) == Get(n, a)
    ensures View(buffer, m, a) == View(buffer, n, a)
  {
    if buffer != [] {
      ViewElsewhere(buffer[..|buffer| - 1], m, n, a);
    }
  }

  lemma DrainMove(s: State, e: Event, guarded: set<Addr>)
    requires Inv(s, guarded) && Enabled(s, e, guarded) && e.action.Drain?
    ensures Inv(Next(s, e, guarded), guarded)
  {
    var c, t := s.cpus[e.cpu], Next(s, e, guarded);
    var d, first := t.cpus[e.cpu], c.buffer[0];
    assert forall k :: 0 <= k < |d.buffer| ==> d.buffer[k] == c.buffer[k + 1];
    DrainTokens(s, e, guarded);
    forall a | a in guarded
      ensures
        && (forall j :: 0 <= j < |t.cpus| && Holds(t.cpus[j]) ==>
              View(t.cpus[j].buffer, t.memory, a) == Get(t.latest, a))
        && ((forall j :: 0 <= j < |t.cpus| ==> !Holds(t.cpus[j])) ==> Get(t.memory, a) == Get(t.latest, a))
    {
      ViewDrained(c.buffer, s.memory, a);
      if first.addr == a {
        assert Token(c);
      } else {
        forall j | 0 <= j < |s.cpus|
          ensures View(s.cpus[j].buffer, s.memory, a) == View(s.cpus[j].buffer, t.memory, a)
        {
          ViewElsewhere(s.cpus[j].buffer, s.memory, t.memory, a);
        }
      }
      assert forall j :: 0 <= j < |s.cpus| ==> (Holds(t.cpus[j]) <==> Holds(s.cpus[j]));
    }
  }

  lemma DrainTokens(s: State, e: Event, guarded: set<Addr>)
    requires Inv(s, guarded) && Enabled(s, e, guarded) && e.action.Drain?
    ensures
      var t := Next(s, e, guarded);
      OneToken(t) && LockWord(t) && CpuInv(t.cpus[e.cpu], guarded)
  {
    var c, t := s.cpus[e.cpu], Next(s, e, guarded);
    var d, first := t.cpus[e.cpu], c.buffer[0];
    assert forall k :: 0 <= k < |d.buffer| ==> d.buffer[k] == c.buffer[k + 1];
    if first.addr == LOCK {
      assert Pending(c) && !Pending(d) && !Holds(d);
      assert forall j :: 0 <= j < |s.cpus| ==> !Token(t.cpus[j]);
    } else {
      assert Pending(d) <==> Pending(c) by {
        if Pending(c) {
          var k :| 0 <= k < |c.buffer| && c.buffer[k].addr == LOCK;
          assert d.buffer[k - 1].addr == LOCK;
        }
      }
      assert forall j :: 0 <= j < |s.cpus| ==> (Token(t.cpus[j]) <==> Token(s.cpus[j]));
    }
  }

  lemma StepInv(s: State, e: Event, guarded: set<Addr>)
    requires Inv(s, guarded) && Enabled(s, e, guarded)
    ensures Inv(Next(s, e, guarded), guarded)
  {
    var c := s.cpus[e.cpu];
    match e.action
    case CompareExchange =>
      if Get(s.memory, LOCK) == 0 {
        AcquireMove(s, e.cpu, Cpu(Fencing, []), guarded);
      } else {
        QuietMove(s, e.cpu, c.(phase := if c.phase == Trying then Spinning else Outside), guarded);
      }
    case CallAcquire => QuietMove(s, e.cpu, c.(phase := Trying), guarded);
    case CallTryAcquire => QuietMove(s, e.cpu, c.(phase := TryingOnce), guarded);
    case SpinLoad => QuietMove(s, e.cpu, c.(phase := Trying), guarded);
    case AcquireFence => QuietMove(s, e.cpu, c.(phase := Inside), guarded);
    case ReleaseFence => QuietMove(s, e.cpu, c.(phase := Releasing), guarded);
    case Write(_, _) => WriteMove(s, e, guarded);
    case ReleaseStore => ReleaseMove(s, e, guarded);
    case Drain => DrainMove(s, e, guarded);
  }

  lemma {:induction false} RunInv(s: State, events: seq<Event>, guarded: set<Addr>)
    requires Inv(s, guarded) && Runs(s, events, guarded)
    ensures Inv(Final(s, events, guarded), guarded)
    decreases |events|
  {
    hide Inv, Enabled, Next;
    if events != [] {
      StepInv(s, events[0], guarded);
      RunInv(Next(s, events[0], guarded), events[1..], guarded);
    }
  }

  // ---------- What the lock guarantees over every run ----------

  /** At most one CPU is in the critical section. */
  lemma MutualExclusion(s: State, events: seq<Event>, guarded: set<Addr>, i: nat, j: nat)
    requires Initial(s, guarded) && Runs(s, events, guarded)
    requires i < |Final(s, events, guarded).cpus| && j < |Final(s, events, guarded).cpus|
    requires Final(s, events, guarded).cpus[i].phase == Inside
    requires Final(s, events, guarded).cpus[j].phase == Inside
    ensures i == j
  {
    InitialInv(s, guarded);
    RunInv(s, events, guarded);
    var t := Final(s, events, guarded);
    assert Token(t.cpus[i]) && Token(t.cpus[j]);
  }

  /** The value of the last store to `a` among the events, in the order they executed. */
  function LastWrite(events: seq<Event>, a: Addr, start: Value): Value {
    if events == [] then start
    else
      match events[|events| - 1].action
      case Write(b, v) => if b == a then v else LastWrite(events[..|events| - 1], a, start)
      case _ => LastWrite(events[..|events| - 1], a, start)
  }

  lemma {:induction false} RunsPrefix(s: State, events: seq<Event>, guarded: set<Addr>)
    requires events != [] && Runs(s, events, guarded)
    ensures Runs(s, events[..|events| - 1], guarded)
    ensures
      var t := Final(s, events[..|events| - 1], guarded);
      && Enabled(t, events[|events| - 1], guarded)
      && Final(s, events, guarded) == Next(t, events[|events| - 1], guarded)
    decreases |events|
  {
    hide Enabled, Next;
    if |events| == 1 {
      assert events[..0] == [];
    } else {
      var n := Next(s, events[0], guarded);
      RunsPrefix(n, events[1..], guarded);
      assert events[1..][..|events| - 2] == events[..|events| - 1][1..];
    }
  }

  lemma {:induction false} LatestIsLastWrite(s: State, events: seq<Event>, guarded: set<Addr>, a: Addr)
    requires Runs(s, events, guarded) && a in guarded
    ensures Get(Final(s, events, guarded).latest, a) == LastWrite(events, a, Get(s.latest, a))
    decreases |events|
  {
    if events != [] {
      RunsPrefix(s, events, guarded);
      LatestIsLastWrite(s, events[..|events| - 1], guarded, a);
    }
  }

  /** Store buffers are invisible under the lock: a load of a protected address inside the critical
      section returns the value of the last store to it that any CPU executed, as on a machine without
      buffers, even while the previous holder's releasing store was still buffered. */
  lemma HolderReadsLastWrite(s: State, events: seq<Event>, guarded: set<Addr>, i: nat, a: Addr)
    requires Initial(s, guarded) && Runs(s, events, guarded) && a in guarded
    requires i < |Final(s, events, guarded).cpus| && Final(s, events, guarded).cpus[i].phase == Inside
    ensures
      var t := Final(s, events, guarded);
      View(t.cpus[i].buffer, t.memory, a) == LastWrite(events, a, Get(s.memory, a))
  {
    InitialInv(s, guarded);
    RunInv(s, events, guarded);
    LatestIsLastWrite(s, events, guarded, a);
  }

  /** While some CPU holds the lock, every CPU that loads the lock word sees it taken, so no spinning
      CPU leaves its inner loop and atomic_spinlock_is_locked answers yes everywhere. */
  lemma HeldLockLooksTaken(s: State, events: seq<Event>, guarded: set<Addr>, i: nat, j: nat)
    requires Initial(s, guarded) && Runs(s, events, guarded)
    requires i < |Final(s, events, guarded).cpus| && j < |Final(s, events, guarded).cpus|
    requires Holds(Final(s, events, guarded).cpus[i])
    ensures
      var t := Final(s, events, guarded);
      View(t.cpus[j].buffer, t.memory, LOCK) == 1
  {
    InitialInv(s, guarded);
    RunInv(s, events, guarded);
    var t := Final(s, events, guarded);
    assert Token(t.cpus[i]);
    if exists k :: 0 <= k < |t.cpus[j].buffer| && t.cpus[j].buffer[k].addr == LOCK {
      assert Token(t.cpus[j]);
    }
    ViewMissing(t.cpus[j].buffer, t.memory, LOCK);
  }

  /** The lock is not lost: if no CPU holds it and every buffer has drained, its word is zero and the
      next compare-exchange takes it. */
  lemma ReleasedLockIsFree(s: State, events: seq<Event>, guarded: set<Addr>)
    requires Initial(s, guarded) && Runs(s, events, guarded)
    requires forall i :: 0 <= i < |Final(s, events, guarded).cpus| ==>
      !Holds(Final(s, events, guarded).cpus[i]) && Final(s, events, guarded).cpus[i].buffer == []
    ensures Get(Final(s, events, guarded).memory, LOCK) == 0
  {
    InitialInv(s, guarded);
    RunInv(s, events, guarded);
    var t := Final(s, events, guarded);
    assert forall i :: 0 <= i < |t.cpus| ==> !Token(t.cpus[i]);
  }

  // ---------- How every call ends ----------

  predicate IsCall(a: Action) {
    a == CallAcquire || a == CallTryAcquire
  }

  /** Where a CPU last entered atomic_spinlock_acquire or atomic_spinlock_try_acquire, or -1. */
  function LatestCall(events: seq<Event>, i: nat): (k: int)
    ensures -1 <= k < |events|
    ensures k >= 0 ==> events[k].cpu == i && IsCall(events[k].action)
    ensures forall j :: k < j < |events| ==> events[j].cpu == i ==> !IsCall(events[j].action)
  {
    if events == [] then -1
    else
      var n := |events| - 1;
      if events[n].cpu == i && IsCall(events[n].action) then n else LatestCall(events[..n], i)
  }

  /** Event `j` of a run is the CPU's, and does this. */
  predicate Did(events: seq<Event>, j: nat, i: nat, a: Action) {
    j < |events| && events[j] == Event(i, a)
  }

  /** What the lock word was in memory when event `j` happened. */
  function WordBefore(s: State, events: seq<Event>, guarded: set<Addr>, j: nat): Value
    requires Runs(s, events, guarded) && j < |events|
  {
    RunsUpTo(s, events, guarded, j);
    Get(Final(s, events[..j], guarded).memory, LOCK)
  }

  lemma {:induction false} RunsUpTo(s: State, events: seq<Event>, guarded: set<Addr>, j: nat)
    requires Runs(s, events, guarded) && j <= |events|
    ensures Runs(s, events[..j], guarded)
    decreases |events|
  {
    hide Enabled, Next;
    if j < |events| {
      RunsPrefix(s, events, guarded);
      RunsUpTo(s, events[..|events| - 1], guarded, j);
      assert events[..|events| - 1][..j] == events[..j];
    } else {
      assert events[..j] == events;
    }
  }

  /** Event `j` is a compare-exchange of the CPU that found the lock word free, or taken. */
  ghost predicate Exchanged(s: State, events: seq<Event>, guarded: set<Addr>, j: nat, i: nat, free: bool)
    requires Runs(s, events, guarded)
  {
    Did(events, j, i, CompareExchange) && (WordBefore(s, events, guarded, j) == 0) == free
  }

  /** Since its latest call the CPU's compare-exchange found the lock word free, or taken. */
  ghost predicate Found(s: State, events: seq<Event>, guarded: set<Addr>, i: nat, free: bool)
    requires Runs(s, events, guarded)
  {
    exists j: nat :: LatestCall(events, i) < j && Exchanged(s, events, guarded, j, i, free)
  }

  /** Since its latest call the CPU has stored zero to the lock word in atomic_spinlock_release. */
  ghost predicate Released(events: seq<Event>, i: nat) {
    exists j: nat :: LatestCall(events, i) < j && Did(events, j, i, ReleaseStore)
  }

  /** What the CPU's own events say about where it is. */
  datatype Story = Story(acquiring: bool, tryingOnce: bool, took: bool, failed: bool, released: bool)

  ghost function StoryOf(s: State, events: seq<Event>, guarded: set<Addr>, i: nat): Story
    requires Runs(s, events, guarded)
  {
    var k := LatestCall(events, i);
    Story(k >= 0 && events[k].action == CallAcquire, k >= 0 && events[k].action == CallTryAcquire,
          Found(s, events, guarded, i, true), Found(s, events, guarded, i, false), Released(events, i))
  }

  /** One more event of the run. */
  lemma StoryGrows(s: State, events: seq<Event>, guarded: set<Addr>, i: nat)
    requires events != [] && Runs(s, events, guarded)
    ensures Runs(s, events[..|events| - 1], guarded)
    ensures
      var n := |events| - 1;
      var e := events[n];
      var before, after := StoryOf(s, events[..n], guarded, i), StoryOf(s, events, guarded, i);
      var word := Get(Final(s, events[..n], guarded).memory, LOCK);
      after ==
        if e == Event(i, CallAcquire) then Story(true, false, false, false, false)
        else if e == Event(i, CallTryAcquire) then Story(false, true, false, false, false)
        else if e == Event(i, CompareExchange) then
          before.(took := before.took || word == 0, failed := before.failed || word != 0)
        else if e == Event(i, ReleaseStore) then before.(released := true)
        else before
  {
    hide Enabled, Next, Final, Runs, Found, Released, LatestCall;
    RunsPrefix(s, events, guarded);
    LatestGrows(events, i);
    FoundGrows(s, events, guarded, i, true);
    FoundGrows(s, events, guarded, i, false);
    ReleasedGrows(events, i);
  }

  lemma LatestGrows(events: seq<Event>, i: nat)
    requires events != []
    ensures
      var n := |events| - 1;
      LatestCall(events, i) == if events[n].cpu == i && IsCall(events[n].action) then n else LatestCall(events[..n], i)
  {}

  lemma FoundGrows(s: State, events: seq<Event>, guarded: set<Addr>, i: nat, free: bool)
    requires events != [] && Runs(s, events, guarded) && Runs(s, events[..|events| - 1], guarded)
    ensures
      var n := |events| - 1;
      Found(s, events, guarded, i, free) <==>
        if events[n].cpu == i && IsCall(events[n].action) then false
        else
          || Found(s, events[..n], guarded, i, free)
          || (events[n] == Event(i, CompareExchange) &&
              (Get(Final(s, events[..n], guarded).memory, LOCK) == 0) == free)
  {
    hide Enabled, Next, Final, Runs, LatestCall, Exchanged;
    LatestGrows(events, i);
    var n := |events| - 1;
    var front := events[..n];
    forall j: nat | j < n
      ensures Exchanged(s, events, guarded, j, i, free) <==> Exchanged(s, front, guarded, j, i, free)
    {
      EarlierExchange(s, events, guarded, j, i, free);
    }
    LastExchange(s, events, guarded, i, free);
    NoExchange(s, events, guarded, i, free);
    NoExchange(s, front, guarded, i, free);
    LatestBelow(events, i);
    LatestBelow(front, i);
  }

  lemma LatestBelow(events: seq<Event>, i: nat)
    ensures LatestCall(events, i) < |events|
  {}

  lemma EarlierExchange(s: State, events: seq<Event>, guarded: set<Addr>, j: nat, i: nat, free: bool)
    requires Runs(s, events, guarded) && j < |events| - 1 && Runs(s, events[..|events| - 1], guarded)
    ensures Exchanged(s, events, guarded, j, i, free) <==> Exchanged(s, events[..|events| - 1], guarded, j, i, free)
  {
    hide Enabled, Next, Final, Runs;
    assert events[..|events| - 1][..j] == events[..j];
  }

  lemma LastExchange(s: State, events: seq<Event>, guarded: set<Addr>, i: nat, free: bool)
    requires events != [] && Runs(s, events, guarded) && Runs(s, events[..|events| - 1], guarded)
    ensures
      var n := |events| - 1;
      Exchanged(s, events, guarded, n, i, free) <==>
        events[n] == Event(i, CompareExchange) && (Get(Final(s, events[..n], guarded).memory, LOCK) == 0) == free
  {
    hide Enabled, Next, Final, Runs;
  }

  lemma NoExchange(s: State, events: seq<Event>, guarded: set<Addr>, i: nat, free: bool)
    requires Runs(s, events, guarded)
    ensures forall j: nat :: Exchanged(s, events, guarded, j, i, free) ==> j < |events|
  {
    hide Enabled, Next, Final, Runs;
  }

  lemma ReleasedGrows(events: seq<Event>, i: nat)
    requires events != []
    ensures
      var n := |events| - 1;
      Released(events, i) <==>
        if events[n].cpu == i && IsCall(events[n].action) then false
        else Released(events[..n], i) || events[n] == Event(i, ReleaseStore)
  {
    hide LatestCall;
    LatestGrows(events, i);
    LatestBelow(events, i);
    LatestBelow(events[..|events| - 1], i);
    var n := |events| - 1;
    assert forall j: nat :: j < n ==> (Did(events, j, i, ReleaseStore) <==> Did(events[..n], j, i, ReleaseStore));
    assert Did(events, n, i, ReleaseStore) <==> events[n] == Event(i, ReleaseStore);
  }

  /** Since its latest call the CPU's last look at the lock word, by compare-exchange or in the inner loop of
      acquire, was a compare-exchange or a load that read the word as taken. */
  ghost predicate Waiting(s: State, events: seq<Event>, guarded: set<Addr>, i: nat)
    requires Runs(s, events, guarded)
    decreases |events|
  {
    if events == [] then false
    else
      RunsPrefix(s, events, guarded);
      var n := |events| - 1;
      var t := Final(s, events[..n], guarded);
      if events[n].cpu != i then Waiting(s, events[..n], guarded, i)
      else
        match events[n].action
        case CallAcquire => false
        case CallTryAcquire => false
        case CompareExchange => true
        case SpinLoad => View(t.cpus[i].buffer, t.memory, LOCK) != 0
        case _ => Waiting(s, events[..n], guarded, i)
  }

  /** The phase of a CPU and its own events tell the same story.  It is outside if it has made no call, if it
      has released the lock since its latest call, or if that was a try_acquire that failed, and never
      otherwise: acquire does not return without the lock. */
  predicate Tells(p: Phase, t: Story, waiting: bool) {
    && (p == Outside <==> (!t.acquiring && !t.tryingOnce) || t.released || (t.tryingOnce && t.failed))
    && (p in {Fencing, Inside, Releasing} <==> t.took && !t.released)
    && (p == TryingOnce <==> t.tryingOnce && !t.took && !t.failed)
    && (p == Trying <==> t.acquiring && !t.took && !waiting)
    && (p == Spinning <==> t.acquiring && !t.took && waiting)
    && (t.released ==> t.took) && (t.took || t.failed ==> t.acquiring || t.tryingOnce)
    && !(t.tryingOnce && t.took && t.failed) && !(t.acquiring && t.tryingOnce)
    && (p == Trying || p == TryingOnce ==> !t.took)
  }

  lemma {:induction false} CallsEnd(s: State, events: seq<Event>, guarded: set<Addr>, i: nat)
    requires Initial(s, guarded) && Runs(s, events, guarded) && i < |s.cpus|
    ensures |Final(s, events, guarded).cpus| == |s.cpus|
    ensures Tells(Final(s, events, guarded).cpus[i].phase,
                  StoryOf(s, events, guarded, i), Waiting(s, events, guarded, i))
    decreases |events|
  {
    if events == [] {
      NoStory(s, guarded, i);
    } else {
      hide Enabled, Next, Tells, StoryOf;
      var n := |events| - 1;
      RunsPrefix(s, events, guarded);
      CallsEnd(s, events[..n], guarded, i);
      StoryGrows(s, events, guarded, i);
      var t := Final(s, events[..n], guarded);
      StepTells(t, events[n], guarded, i, StoryOf(s, events[..n], guarded, i), StoryOf(s, events, guarded, i),
                Waiting(s, events[..n], guarded, i), Waiting(s, events, guarded, i));
    }
  }

  lemma NoStory(s: State, guarded: set<Addr>, i: nat)
    ensures StoryOf(s, [], guarded, i) == Story(false, false, false, false, false)
  {}

  lemma StepTells(s: State, e: Event, guarded: set<Addr>, i: nat, before: Story, after: Story,
                  waited: bool, waiting: bool)
    requires Enabled(s, e, guarded) && i < |s.cpus| && Tells(s.cpus[i].phase, before, waited)
    requires
      var word := Get(s.memory, LOCK);
      after ==
        if e == Event(i, CallAcquire) then Story(true, false, false, false, false)
        else if e == Event(i, CallTryAcquire) then Story(false, true, false, false, false)
        else if e == Event(i, CompareExchange) then
          before.(took := before.took || word == 0, failed := before.failed || word != 0)
        else if e == Event(i, ReleaseStore) then before.(released := true)
        else before
    requires waiting ==
      if e.cpu != i then waited
      else match e.action
        case CallAcquire => false
        case CallTryAcquire => false
        case CompareExchange => true
        case SpinLoad => View(s.cpus[i].buffer, s.memory, LOCK) != 0
        case _ => waited
    ensures |Next(s, e, guarded).cpus| == |s.cpus|
    ensures Tells(Next(s, e, guarded).cpus[i].phase, after, waiting)
  {
    hide View, Get;
  }

  lemma {:induction false} RunsOn(s: State, events: seq<Event>, guarded: set<Addr>, e: Event)
    requires Runs(s, events, guarded) && Enabled(Final(s, events, guarded), e, guarded)
    ensures Runs(s, events + [e], guarded)
    ensures Final(s, events + [e], guarded) == Next(Final(s, events, guarded), e, guarded)
    decreases |events|
  {
    hide Enabled, Next;
    if events == [] {
      assert [] + [e] == [e] && [e][1..] == [];
    } else {
      assert (events + [e])[1..] == events[1..] + [e];
      RunsOn(Next(s, events[0], guarded), events[1..], guarded, e);
    }
  }

  /** A CPU spinning on a lock that has become free can go on: it reads zero, tries again, and if nobody came
      between it has the lock. */
  lemma SpinningTakesFreeLock(s: State, events: seq<Event>, guarded: set<Addr>, i: nat)
    requires Runs(s, events, guarded) && i < |Final(s, events, guarded).cpus|
    requires
      var t := Final(s, events, guarded);
      t.cpus[i] == Cpu(Spinning, []) && Get(t.memory, LOCK) == 0
    ensures
      var all := events + [Event(i, SpinLoad)] + [Event(i, CompareExchange)];
      && Runs(s, all, guarded) && i < |Final(s, all, guarded).cpus|
      && Final(s, all, guarded).cpus[i].phase == Fencing && Get(Final(s, all, guarded).memory, LOCK) == 1
  {
    hide Runs, Final;
    RunsOn(s, events, guarded, Event(i, SpinLoad));
    RunsOn(s, events + [Event(i, SpinLoad)], guarded, Event(i, CompareExchange));
  }

  // ---------- The runs there are ----------

  /** The lock code never gets stuck: with its buffer drained a CPU can always take the next step of the code,
      and inside or outside it can store where the lock's users may. */
  lemma CodeCanGoOn(s: State, i: nat, guarded: set<Addr>, a: Addr, v: Value)
    requires i < |s.cpus| && s.cpus[i].buffer == []
    ensures
      match s.cpus[i].phase
      case Outside =>
        && Enabled(s, Event(i, CallAcquire), guarded) && Enabled(s, Event(i, CallTryAcquire), guarded)
        && (a != 0 && a !in guarded ==> Enabled(s, Event(i, Write(a, v)), guarded))
      case Trying => Enabled(s, Event(i, CompareExchange), guarded)
      case TryingOnce => Enabled(s, Event(i, CompareExchange), guarded)
      case Spinning => Enabled(s, Event(i, SpinLoad), guarded)
      case Fencing => Enabled(s, Event(i, AcquireFence), guarded)
      case Inside =>
        Enabled(s, Event(i, ReleaseFence), guarded) && (a != 0 ==> Enabled(s, Event(i, Write(a, v)), guarded))
      case Releasing => Enabled(s, Event(i, ReleaseStore), guarded)
  {}

  /** And it can always drain. */
  lemma BufferCanDrain(s: State, i: nat, guarded: set<Addr>)
    requires i < |s.cpus| && s.cpus[i].buffer != []
    ensures Enabled(s, Event(i, Drain), guarded)
    ensures |Next(s, Event(i, Drain), guarded).cpus[i].buffer| == |s.cpus[i].buffer| - 1
  {}

  /** A hand-over: CPU 0 takes the lock, stores 7 to address 5, and releases; CPU 1, which has been spinning,
      gets the lock once the releasing store has left the buffer. */
  const HAND_OVER: seq<Event> := [
    Event(0, CallAcquire), Event(0, CompareExchange), Event(0, AcquireFence), Event(0, Write(5, 7)),
    Event(1, CallAcquire), Event(1, CompareExchange), Event(0, Drain), Event(0, ReleaseFence),
    Event(0, ReleaseStore), Event(1, SpinLoad), Event(0, Drain), Event(1, SpinLoad),
    Event(1, CompareExchange), Event(1, AcquireFence)]

  const START := State([Cpu(Outside, []), Cpu(Outside, [])], map[], map[])

  lemma HandOverHappens()
    ensures Initial(START, {5}) && Runs(START, HAND_OVER, {5})
    ensures
      var t := Final(START, HAND_OVER, {5});
      && |t.cpus| == 2 && t.cpus[0].phase == Outside && t.cpus[1].phase == Inside
      && View(t.cpus[1].buffer, t.memory, 5) == 7
  {
    hide Runs, Final, HandOverState;
    HandOverEnds();
    HandOverFrom(START, 0);
    assert HAND_OVER[0..] == HAND_OVER;
  }

  lemma HandOverEnds()
    ensures HandOverState(0) == START
    ensures HandOverState(14) == State([Cpu(Outside, []), Cpu(Inside, [])], map[0 := 1, 5 := 7], map[5 := 7])
  {}

  /** The state after the first `k` events. */
  function HandOverState(k: nat): State
    requires k <= 14
  {
    var m0, m1, m2, m3 := map[], map[0 := 1], map[0 := 1, 5 := 7], map[0 := 0, 5 := 7];
    var latest := map[5 := 7];
    var out := Cpu(Outside, []);
    if k == 0 then START
    else if k == 1 then State([Cpu(Trying, []), out], m0, m0)
    else if k == 2 then State([Cpu(Fencing, []), out], m1, m0)
    else if k == 3 then State([Cpu(Inside, []), out], m1, m0)
    else if k == 4 then State([Cpu(Inside, [Store(5, 7)]), out], m1, latest)
    else if k == 5 then State([Cpu(Inside, [Store(5, 7)]), Cpu(Trying, [])], m1, latest)
    else if k == 6 then State([Cpu(Inside, [Store(5, 7)]), Cpu(Spinning, [])], m1, latest)
    else if k == 7 then State([Cpu(Inside, []), Cpu(Spinning, [])], m2, latest)
    else if k == 8 then State([Cpu(Releasing, []), Cpu(Spinning, [])], m2, latest)
    else if k <= 10 then State([Cpu(Outside, [Store(0, 0)]), Cpu(Spinning, [])], m2, latest)
    else if k == 11 then State([out, Cpu(Spinning, [])], m3, latest)
    else if k == 12 then State([out, Cpu(Trying, [])], m3, latest)
    else if k == 13 then State([out, Cpu(Fencing, [])], m2, latest)
    else State([out, Cpu(Inside, [])], m2, latest)
  }

  lemma HandOverStep(k: nat)
    requires k < 14
    ensures Enabled(HandOverState(k), HAND_OVER[k], {5})
    ensures Next(HandOverState(k), HAND_OVER[k], {5}) == HandOverState(k + 1)
  {
    HandOverMaps();
    HandOverBuffers();
    var t := Next(HandOverState(k), HAND_OVER[k], {5});
    assert t.cpus == [t.cpus[0], t.cpus[1]];
  }

  lemma HandOverBuffers()
    ensures var b: seq<Store> := []; b + [Store(5, 7)] == [Store(5, 7)] && b + [Store(0, 0)] == [Store(0, 0)]
    ensures [Store(5, 7)][1..] == [] && [Store(0, 0)][1..] == []
  {}

  lemma HandOverMaps()
    ensures var m: Memory := map[]; m[0 := 1] == map[0 := 1]
    ensures var m: Memory := map[]; m[5 := 7] == map[5 := 7]
    ensures var m: Memory := map[0 := 1]; m[5 := 7] == map[0 := 1, 5 := 7]
    ensures var m: Memory := map[0 := 1, 5 := 7]; m[0 := 0] == map[0 := 0, 5 := 7]
    ensures var m: Memory := map[0 := 0, 5 := 7]; m[0 := 1] == map[0 := 1, 5 := 7]
  {
    assert map[0 := 1, 5 := 7][0 := 0] == map[0 := 0, 5 := 7];
    assert map[0 := 0, 5 := 7][0 := 1] == map[0 := 1, 5 := 7];
  }

  lemma {:induction false} HandOverFrom(s: State, k: nat)
    requires k <= 14 && s == HandOverState(k)
    ensures Runs(s, HAND_OVER[k..], {5}) && Final(s, HAND_OVER[k..], {5}) == HandOverState(14)
    decreases 14 - k
  {
    hide HandOverState, Enabled, Next;
    if k < 14 {
      HandOverStep(k);
      HandOverFrom(HandOverState(k + 1), k + 1);
      var events := HAND_OVER[k..];
      assert events != [] && events[0] == HAND_OVER[k] && events[1..] == HAND_OVER[k + 1..];
    } else {
      assert HAND_OVER[k..] == [];
    }
  }
}
