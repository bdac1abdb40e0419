/** 64-bit loads and stores built from compare-exchange (src/drivers/atomic.c), with the cmpxchg8b
    instruction present: what one call does with the two halves of the word, and what any number of
    CPUs do to the word together.  Every access is a locked instruction, so no store of the word waits
    in a store buffer. */
module AtomicWord {
  import opened MachineTypes

  const TWO_TO_64 := 0x1_0000_0000_0000_0000

  type Half = x: int | 0 <= x < TWO_TO_32
  type Wide = x: int | 0 <= x < TWO_TO_64

  function LowHalf(x: Wide): Half {
    x % TWO_TO_32
  }

  function HighHalf(x: Wide): Half {
    x / TWO_TO_32
  }

  function Join(low: Half, high: Half): Wide {
    high * TWO_TO_32 + low
  }

  lemma Halves(x: Wide, low: Half, high: Half)
    ensures Join(LowHalf(x), HighHalf(x)) == x
    ensures LowHalf(Join(low, high)) == low && HighHalf(Join(low, high)) == high
  {}

  class Cell {
    var low: Half
    var high: Half
    const cmpxchg8b: bool

    constructor (value: Wide, cmpxchg8b: bool)
      ensures Value() == value && this.cmpxchg8b == cmpxchg8b
    {
      low, high := LowHalf(value), HighHalf(value);
      this.cmpxchg8b := cmpxchg8b;
      new;
      Halves(value, low, high);
    }

    function Value(): Wide
      reads this
    {
      Join(low, high)
    }

    /** lock cmpxchg8b: edx:eax is compared, ecx:ebx stored; eax and edx come back with what was there. */
    method CmpXchg8b(eax: Half, edx: Half, ebx: Half, ecx: Half) returns (zf: bool, a: Half, d: Half)
      modifies this
      ensures zf <==> old(low) == eax && old(high) == edx
      ensures a == old(low) && d == old(high)
      ensures if zf then low == ebx && high == ecx else low == old(low) && high == old(high)
    {
      zf, a, d := low == eax && high == edx, low, high;
      if zf {
        low, high := ebx, ecx;
      }
    }

    /** atomic_load_u64: comparing with zero and storing zero reads the word and leaves it alone, like the
        plain read of a machine without the instruction. */
    method Load() returns (result: Wide)
      modifies this
      ensures result == old(Value()) && Value() == old(Value())
    {
      if !cmpxchg8b {
        return Value();
      }
      var zf, a, d := CmpXchg8b(0, 0, 0, 0);
      result := Join(a, d);
    }

    /** atomic_compare_exchange_u64 */
    method CompareExchange(expected: Wide, desired: Wide) returns (success: bool, found: Wide)
      modifies this
      ensures cmpxchg8b ==> (success <==> old(Value()) == expected) && found == old(Value())
      ensures !cmpxchg8b ==> !success && found == expected
      ensures Value() == if success then desired else old(Value())
    {
      hide LowHalf, HighHalf, Join;
      if !cmpxchg8b {
        return false, expected;
      }
      Halves(expected, low, high);
      Halves(desired, low, high);
      var zf, a, d := CmpXchg8b(LowHalf(expected), HighHalf(expected), LowHalf(desired), HighHalf(desired));
      success, found := zf, Join(a, d);
    }
  }

  // ---------- Any number of CPUs ----------

  /** Where a CPU stands in atomic_store_u64. */
  datatype Phase =
    | Idle
    | Loading(value: Wide)                    // the load of the retry loop is next
    | Exchanging(value: Wide, expected: Wide) // the compare-exchange is next

  /** A value stored in the word, and the CPU whose compare-exchange stored it. */
  datatype Stored = Stored(cpu: nat, value: Wide)

  /** `written` lists the compare-exchanges that succeeded, in order; `losses` counts those that failed. */
  datatype State = State(cpus: seq<Phase>, word: Wide, written: seq<Stored>, losses: nat)

  datatype Action = Call(value: Wide) | LoadStep | ExchangeStep

  datatype Event = Event(cpu: nat, action: Action)

  predicate Enabled(s: State, e: Event) {
    && e.cpu < |s.cpus|
    && match e.action
       case Call(_) => s.cpus[e.cpu].Idle?
       case LoadStep => s.cpus[e.cpu].Loading?
       case ExchangeStep => s.cpus[e.cpu].Exchanging?
  }

  function Next(s: State, e: Event): State
    requires Enabled(s, e)
  {
    var c := s.cpus[e.cpu];
    match e.action
    case Call(v) => s.(cpus := s.cpus[e.cpu := Loading(v)])
    case LoadStep => s.(cpus := s.cpus[e.cpu := Exchanging(c.value, s.word)])
    case ExchangeStep =>
      if s.word == c.expected then
        s.(cpus := s.cpus[e.cpu := Idle], word := c.value, written := s.written + [Stored(e.cpu, c.value)])
      else
        s.(cpus := s.cpus[e.cpu := Loading(c.value)], losses := s.losses + 1)
  }

  predicate Initial(s: State) {
    && (forall i :: 0 <= i < |s.cpus| ==> s.cpus[i].Idle?)
    && |s.cpus| > 0 && s.written == [] && s.losses == 0
  }

  /** The events can happen one after the other. */
  predicate Runs(s: State, events: seq<Event>)
    decreases |events|, 0
  {
    events == [] ||
    (var n := |events| - 1;
     Runs(s, events[..n]) && Enabled(Final(s, events[..n]), events[n]))
  }

  function Final(s: State, events: seq<Event>): State
    requires Runs(s, events)
    decreases |events|, 1
  {
    if events == [] then s
    else
      var n := |events| - 1;
      Next(Final(s, events[..n]), events[n])
  }

  /** No CPU ever gets stuck: it can be called when idle, with any value, and otherwise take the next step of
      the loop. */
  lemma CodeCanGoOn(s: State, i: nat, v: Wide)
    requires i < |s.cpus|
    ensures
      match s.cpus[i]
      case Idle => Enabled(s, Event(i, Call(v)))
      case Loading(_) => Enabled(s, Event(i, LoadStep))
      case Exchanging(_, _) => Enabled(s, Event(i, ExchangeStep))
  {}

  // ---------- Every call stores its value, once ----------

  /** The values a CPU was asked to store, in order. */
  function CallsOf(events: seq<Event>, i: nat): seq<Wide> {
    if events == [] then []
    else
      var n := |events| - 1;
      CallsOf(events[..n], i) +
      if events[n].cpu == i && events[n].action.Call? then [events[n].action.value] else []
  }

  /** The values a CPU did store, in order. */
  function StoresOf(written: seq<Stored>, i: nat): seq<Wide> {
    if written == [] then []
    else
      var n := |written| - 1;
      StoresOf(written[..n], i) + if written[n].cpu == i then [written[n].value] else []
  }

  /** The value of the call that has not returned. */
  function InProgress(p: Phase): seq<Wide> {
    match p
    case Idle => []
    case Loading(v) => [v]
    case Exchanging(v, _) => [v]
  }

  /** In every interleaving the stores of each CPU are exactly the calls made on it, in order and once each,
      without the one still in progress. */
  lemma {:induction false} EachCallStoresOnce(start: State, events: seq<Event>, i: nat)
    requires Initial(start) && Runs(start, events) && i < |start.cpus|
    ensures
      var s := Final(start, events);
      && |s.cpus| == |start.cpus|
      && CallsOf(events, i) == StoresOf(s.written, i) + InProgress(s.cpus[i])
    decreases |events|
  {
    hide Next, StoresOf, InProgress, Enabled;
    if events != [] {
      var n := |events| - 1;
      EachCallStoresOnce(start, events[..n], i);
      var s := Final(start, events[..n]);
      StepStores(s, events[n], i);
    } else {
      NothingStored(start, i);
    }
  }

  /** What one step adds to the stores and the call in progress: the value of the call it is, if any. */
  lemma StepStores(s: State, e: Event, i: nat)
    requires Enabled(s, e) && i < |s.cpus|
    ensures
      var t := Next(s, e);
      && |t.cpus| == |s.cpus|
      && StoresOf(t.written, i) + InProgress(t.cpus[i]) ==
         (StoresOf(s.written, i) + InProgress(s.cpus[i])) +
         if e.cpu == i && e.action.Call? then [e.action.value] else []
  {
    var t := Next(s, e);
    if t.written != s.written {
      assert t.written[..|s.written|] == s.written;
    }
  }

  lemma NothingStored(s: State, i: nat)
    requires Initial(s) && i < |s.cpus|
    ensures StoresOf(s.written, i) + InProgress(s.cpus[i]) == []
  {}

  /** The word holds what was stored last, so that is what a load reads at any moment. */
  lemma {:induction false} LoadsReadTheLastStore(start: State, events: seq<Event>)
    requires Initial(start) && Runs(start, events)
    ensures
      var s := Final(start, events);
      s.word == if s.written == [] then start.word else s.written[|s.written| - 1].value
    decreases |events|
  {
    if events != [] {
      LoadsReadTheLastStore(start, events[..|events| - 1]);
    }
  }

  // ---------- No store in between is lost ----------

  /** Where a CPU last loaded the word, or -1. */
  function LastLoad(events: seq<Event>, i: nat): (k: int)
    ensures -1 <= k < |events|
    ensures k >= 0 ==> events[k] == Event(i, LoadStep)
  {
    if events == [] then -1
    else
      var n := |events| - 1;
      if events[n] == Event(i, LoadStep) then n else LastLoad(events[..n], i)
  }

  /** A CPU about to exchange has loaded before, and expects the word its last load saw. */
  lemma {:induction false} ExpectsWhatItLoaded(start: State, events: seq<Event>, i: nat)
    requires Initial(start) && Runs(start, events)
    ensures |Final(start, events).cpus| == |start.cpus|
    ensures i < |start.cpus| && Final(start, events).cpus[i].Exchanging? ==>
      var k := LastLoad(events, i);
      0 <= k && Runs(start, events[..k]) &&
      Final(start, events).cpus[i].expected == Final(start, events[..k]).word
    decreases |events|
  {
    if events != [] {
      var n := |events| - 1;
      ExpectsWhatItLoaded(start, events[..n], i);
      var k := LastLoad(events, i);
      if 0 <= k < n {
        assert events[..n][..k] == events[..k];
      }
    }
  }

  /** A compare-exchange stores exactly when the word is the very one that the CPU's own last load saw: no
      value is ever stored over one that its call has not seen. */
  lemma StoresOverWhatItLoaded(start: State, events: seq<Event>, i: nat)
    requires Initial(start) && Runs(start, events + [Event(i, ExchangeStep)])
    ensures
      var all := events + [Event(i, ExchangeStep)];
      var k := LastLoad(events, i);
      && 0 <= k && Runs(start, events[..k]) && Runs(start, events)
      && (Final(start, all).written != Final(start, events).written <==>
          Final(start, events).word == Final(start, events[..k]).word)
      && (Final(start, all).written == Final(start, events).written <==>
          Final(start, all).losses == Final(start, events).losses + 1)
  {
    var all := events + [Event(i, ExchangeStep)];
    assert all[..|all| - 1] == events;
    ExpectsWhatItLoaded(start, events, i);
  }

  // ---------- Progress ----------

  /** Its compare-exchange is bound to fail unless the word changes back. */
  predicate IsStale(p: Phase, word: Wide) {
    p.Exchanging? && p.expected != word
  }

  function StaleCount(cpus: seq<Phase>, word: Wide): (n: nat)
    ensures n <= |cpus|
  {
    if cpus == [] then 0 else StaleCount(cpus[1..], word) + if IsStale(cpus[0], word) then 1 else 0
  }

  /** The failed attempts and those bound to fail are paid for by the successful ones. */
  predicate Inv(s: State) {
    && |s.cpus| > 0
    && s.losses + StaleCount(s.cpus, s.word) <= (|s.cpus| - 1) * |s.written|
  }

  lemma {:induction false} StaleMoved(cpus: seq<Phase>, i: nat, p: Phase, word: Wide)
    requires i < |cpus|
    ensures StaleCount(cpus[i := p], word) + (if IsStale(cpus[i], word) then 1 else 0)
         == StaleCount(cpus, word) + (if IsStale(p, word) then 1 else 0)
  {
    hide IsStale;
    if i > 0 {
      StaleMoved(cpus[1..], i - 1, p, word);
      assert cpus[i := p][1..] == cpus[1..][i - 1 := p];
    }
  }

  lemma {:induction false} StaleBelow(cpus: seq<Phase>, i: nat, word: Wide)
    requires i < |cpus| && !IsStale(cpus[i], word)
    ensures StaleCount(cpus, word) <= |cpus| - 1
  {
    if i > 0 {
      StaleBelow(cpus[1..], i - 1, word);
    }
  }

  lemma {:induction false} NoneStale(cpus: seq<Phase>, word: Wide)
    requires forall i :: 0 <= i < |cpus| ==> cpus[i].Idle?
    ensures StaleCount(cpus, word) == 0
  {
    if cpus != [] {
      NoneStale(cpus[1..], word);
    }
  }

  lemma StepKeeps(s: State, e: Event)
    requires Inv(s) && Enabled(s, e)
    ensures Inv(Next(s, e)) && |Next(s, e).cpus| == |s.cpus|
  {
    hide StaleCount;
    var t := Next(s, e);
    StaleMoved(s.cpus, e.cpu, t.cpus[e.cpu], s.word);
    if |t.written| > |s.written| {
      StaleBelow(t.cpus, e.cpu, t.word);
      assert (|s.cpus| - 1) * |t.written| == (|s.cpus| - 1) * |s.written| + (|s.cpus| - 1);
    }
  }

  lemma {:induction false} RunKeeps(s: State, events: seq<Event>)
    requires Inv(s) && Runs(s, events)
    ensures Inv(Final(s, events)) && |Final(s, events).cpus| == |s.cpus|
    decreases |events|
  {
    hide Inv, Next, Enabled;
    if events != [] {
      var n := |events| - 1;
      RunKeeps(s, events[..n]);
      StepKeeps(Final(s, events[..n]), events[n]);
    }
  }

  /** Progress of the whole: of n CPUs, each store that takes effect lets at most n - 1 attempts fail.  In
      particular a CPU alone never fails. */
  lemma FailuresArePaidFor(start: State, events: seq<Event>)
    requires Initial(start) && Runs(start, events)
    ensures
      var s := Final(start, events);
      s.losses <= (|s.cpus| - 1) * |s.written|
  {
    NoneStale(start.cpus, start.word);
    RunKeeps(start, events);
  }
}
