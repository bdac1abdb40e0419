/** The inter-core mailbox of arch/stm32h/ipc_mailbox.c.  Senders take one lock and receivers another,
    so one sender and one receiver run at once: the model interleaves their single memory accesses. */
module Mailbox {
  import opened MachineTypes

  const MAILBOX_SIZE := 256

  /** Where the sender holding the send lock stands. */
  datatype Sender =
    | NotSending
    | Sending(buf: seq<Byte>, copiedIn: nat)

  /** Where the receiver holding the receive lock stands; `out` is the caller's buffer so far. */
  datatype Receiver =
    | NotReceiving
    | Receiving(copy: nat, out: seq<Byte>)

  /** The shared mailbox and the two sides.  `sent` is everything whose send has published its head, and
      `delivered` everything whose receive has published its tail. */
  datatype State = State(
    head: nat, tail: nat, data: seq<Byte>,
    sender: Sender, receiver: Receiver,
    sent: seq<Byte>, delivered: seq<Byte>)

  function Slot(base: nat, k: nat): (slot: nat)
    ensures slot < MAILBOX_SIZE
  {
    (base + k) % MAILBOX_SIZE
  }

  /** mbox_free, in the unsigned 32-bit arithmetic of the source. */
  function Free(s: State): nat {
    (s.tail - s.head - 1) % TWO_TO_32 % MAILBOX_SIZE
  }

  /** mbox_used */
  function Used(s: State): nat {
    (s.head - s.tail) % TWO_TO_32 % MAILBOX_SIZE
  }

  datatype Action =
    | BeginSend(buf: seq<Byte>)  // mbox_send entered; the caller has checked mbox_free
    | CopyIn                     // one iteration of the sender's loop
    | PublishHead                // m->head advanced, lock released
    | BeginReceive(max: nat)     // mbox_recv entered and mbox_used read
    | CopyOut                    // one iteration of the receiver's loop
    | PublishTail                // m->tail advanced, lock released

  predicate Enabled(s: State, a: Action) {
    match a
    case BeginSend(buf) => s.sender.NotSending? && |buf| <= Free(s)
    case CopyIn => s.sender.Sending? && s.sender.copiedIn < |s.sender.buf|
    case PublishHead => s.sender.Sending? && s.sender.copiedIn == |s.sender.buf|
    case BeginReceive(_) => s.receiver.NotReceiving?
    case CopyOut => s.receiver.Receiving? && |s.receiver.out| < s.receiver.copy
    case PublishTail => s.receiver.Receiving? && |s.receiver.out| == s.receiver.copy
  }

  predicate InRange(s: State) {
    s.head < MAILBOX_SIZE && s.tail < MAILBOX_SIZE && |s.data| == MAILBOX_SIZE
  }

  function Next(s: State, a: Action): State
    requires InRange(s) && Enabled(s, a)
  {
    match a
    case BeginSend(buf) => s.(sender := Sending(buf, 0))
    case CopyIn =>
      var i := s.sender.copiedIn;
      s.(data := s.data[Slot(s.head, i) := s.sender.buf[i]], sender := s.sender.(copiedIn := i + 1))
    case PublishHead =>
      s.(head := Slot(s.head, |s.sender.buf|), sender := NotSending, sent := s.sent + s.sender.buf)
    case BeginReceive(max) =>
      s.(receiver := Receiving(if Used(s) > max then max else Used(s), []))
    case CopyOut =>
      var out := s.receiver.out;
      s.(receiver := s.receiver.(out := out + [s.data[Slot(s.tail, |out|)]]))
    case PublishTail =>
      s.(tail := Slot(s.tail, s.receiver.copy), receiver := NotReceiving,
         delivered := s.delivered + s.receiver.out)
  }

  predicate Initial(s: State) {
    && s.head == 0 && s.tail == 0 && |s.data| == MAILBOX_SIZE
    && s.sender == NotSending && s.receiver == NotReceiving
    && s.sent == [] && s.delivered == []
  }

  // ---------- The invariant ----------

  /** The `n` bytes of the ring from `base`. */
  function Ring(data: seq<Byte>, base: nat, n: nat): (r: seq<Byte>)
    requires |data| == MAILBOX_SIZE
    ensures |r| == n
  {
    seq(n, k requires 0 <= k < n => data[Slot(base, k)])
  }

  function Content(s: State): (c: seq<Byte>)
    requires InRange(s)
    ensures |c| == Used(s)
  {
    Ring(s.data, s.tail, Used(s))
  }

  predicate Inv(s: State) {
    && InRange(s)
    && s.sent == s.delivered + Content(s)
    && (s.sender.Sending? ==>
          && s.sender.copiedIn <= |s.sender.buf| <= Free(s)
          && s.sender.buf[..s.sender.copiedIn] == Ring(s.data, s.head, s.sender.copiedIn))
    && (s.receiver.Receiving? ==>
          && |s.receiver.out| <= s.receiver.copy <= Used(s)
          && s.receiver.out == Ring(s.data, s.tail, |s.receiver.out|))
  }

  // ---------- Arithmetic of the ring ----------

  /** Occupied and free slots add up to one less than the size, and the head is where the content ends. */
  lemma UsedAndFree(s: State)
    requires InRange(s)
    ensures Used(s) + Free(s) == MAILBOX_SIZE - 1
    ensures s.head == Slot(s.tail, Used(s))
  {
    assert TWO_TO_32 == 0x1000000 * MAILBOX_SIZE;
    if s.head >= s.tail {
      assert Used(s) == s.head - s.tail;
      assert s.tail - s.head - 1 + TWO_TO_32 == 0xFFFFFF00 + (s.tail - s.head - 1 + 256);
    } else {
      assert Free(s) == s.tail - s.head - 1;
      assert s.head - s.tail + TWO_TO_32 == 0xFFFFFF00 + (s.head - s.tail + 256);
    }
  }

  lemma SlotSlot(base: nat, i: nat, k: nat)
    ensures Slot(Slot(base, i), k) == Slot(base, i + k)
  {}

  /** Fewer than 256 steps never come back to the same slot. */
  lemma SlotDistinct(base: nat, i: nat, k: nat)
    requires i < k < MAILBOX_SIZE
    ensures Slot(base, i) != Slot(base, k)
  {
    var p, q := (base + i) / MAILBOX_SIZE, (base + k) / MAILBOX_SIZE;
    assert base + i == MAILBOX_SIZE * p + Slot(base, i);
    assert base + k == MAILBOX_SIZE * q + Slot(base, k);
  }

  lemma RingAppend(data: seq<Byte>, base: nat, m: nat, n: nat)
    requires |data| == MAILBOX_SIZE
    ensures Ring(data, base, m + n) == Ring(data, base, m) + Ring(data, Slot(base, m), n)
  {
    hide Slot;
    var whole, first, rest := Ring(data, base, m + n), Ring(data, base, m), Ring(data, Slot(base, m), n);
    forall k | 0 <= k < n ensures whole[m + k] == rest[k] {
      SlotSlot(base, m, k);
    }
    assert whole == first + rest;
  }

  /** A byte written outside a stretch of the ring leaves the stretch as it was. */
  lemma RingUnwritten(data: seq<Byte>, base: nat, n: nat, i: nat, b: Byte)
    requires |data| == MAILBOX_SIZE && n <= i < MAILBOX_SIZE
    ensures Ring(data[Slot(base, i) := b], base, n) == Ring(data, base, n)
  {
    hide Slot;
    forall k | 0 <= k < n ensures Slot(base, k) != Slot(base, i) {
      SlotDistinct(base, k, i);
    }
  }

  // ---------- Every step keeps the invariant ----------

  lemma CopyInKeeps(s: State)
    requires Inv(s) && Enabled(s, CopyIn)
    ensures Inv(Next(s, CopyIn))
  {
    hide Slot, Used, Free;
    var i, used := s.sender.copiedIn, Used(s);
    var t := Next(s, CopyIn);
    UsedAndFree(s);
    assert Used(t) == Used(s) && Free(t) == Free(s) by { SameCounters(s, t); }
    SlotSlot(s.tail, used, i);
    RingUnwritten(s.data, s.tail, used, used + i, s.sender.buf[i]);
    RingUnwritten(s.data, s.head, i, i, s.sender.buf[i]);
    RingAppend(t.data, s.head, i, 1);
    SlotSlot(s.head, i, 0);
    if s.receiver.Receiving? {
      RingUnwritten(s.data, s.tail, |s.receiver.out|, used + i, s.sender.buf[i]);
    }
  }

  lemma SameCounters(s: State, t: State)
    requires s.head == t.head && s.tail == t.tail
    ensures Used(s) == Used(t) && Free(s) == Free(t)
  {}

  lemma PublishHeadKeeps(s: State)
    requires Inv(s) && Enabled(s, PublishHead)
    ensures Inv(Next(s, PublishHead))
    ensures Used(Next(s, PublishHead)) == Used(s) + |s.sender.buf|
  {
    hide Slot;
    var t, n := Next(s, PublishHead), |s.sender.buf|;
    UsedAndFree(s);
    SlotSlot(s.tail, Used(s), n);
    UsedFromSlot(t, Used(s) + n);
    RingAppend(s.data, s.tail, Used(s), n);
    assert s.sender.buf[..n] == s.sender.buf;
    assert s.sent + s.sender.buf == s.delivered + (Content(s) + s.sender.buf);
  }

  /** The counters give back how far the head is ahead of the tail. */
  lemma UsedFromSlot(s: State, n: nat)
    requires InRange(s) && s.head == Slot(s.tail, n) && n < MAILBOX_SIZE
    ensures Used(s) == n
  {
    hide Used;
    UsedAndFree(s);
    if Used(s) < n {
      SlotDistinct(s.tail, Used(s), n);
    } else if n < Used(s) {
      SlotDistinct(s.tail, n, Used(s));
    }
  }

  lemma BeginReceiveKeeps(s: State, max: nat)
    requires Inv(s) && Enabled(s, BeginReceive(max))
    ensures Inv(Next(s, BeginReceive(max)))
  {}

  lemma CopyOutKeeps(s: State)
    requires Inv(s) && Enabled(s, CopyOut)
    ensures Inv(Next(s, CopyOut))
  {
    hide Slot;
    var out := s.receiver.out;
    SameCounters(s, Next(s, CopyOut));
    RingAppend(s.data, s.tail, |out|, 1);
    SlotSlot(s.tail, |out|, 0);
    assert Ring(s.data, Slot(s.tail, |out|), 1) == [s.data[Slot(s.tail, |out|)]];
  }

  lemma PublishTailKeeps(s: State)
    requires Inv(s) && Enabled(s, PublishTail)
    ensures Inv(Next(s, PublishTail))
  {
    hide Slot, Used, Free;
    var t, n := Next(s, PublishTail), s.receiver.copy;
    UsedAndFree(s);
    UsedAndFree(t);
    SlotSlot(s.tail, n, Used(s) - n);
    UsedFromSlot(t, Used(s) - n);
    RingAppend(s.data, s.tail, n, Used(s) - n);
    assert s.delivered + (s.receiver.out + Content(t)) == t.delivered + Content(t);
  }

  lemma BeginSendKeeps(s: State, buf: seq<Byte>)
    requires Inv(s) && Enabled(s, BeginSend(buf))
    ensures Inv(Next(s, BeginSend(buf)))
  {
    SameCounters(s, Next(s, BeginSend(buf)));
  }

  lemma StepKeeps(s: State, a: Action)
    requires Inv(s) && Enabled(s, a)
    ensures Inv(Next(s, a))
  {
    hide Inv, Next;
    match a
    case BeginSend(buf) => BeginSendKeeps(s, buf);
    case CopyIn => CopyInKeeps(s);
    case PublishHead => PublishHeadKeeps(s);
    case BeginReceive(max) => BeginReceiveKeeps(s, max);
    case CopyOut => CopyOutKeeps(s);
    case PublishTail => PublishTailKeeps(s);
  }

  // ---------- Every interleaving ----------

  /** The steps can be taken one after the other: any interleaving of the two sides. */
  predicate Runs(s: State, actions: seq<Action>)
    decreases |actions|
  {
    actions == [] ||
    (InRange(s) && Enabled(s, actions[0]) && Runs(Next(s, actions[0]), actions[1..]))
  }

  function Final(s: State, actions: seq<Action>): State
    requires Runs(s, actions)
    decreases |actions|
  {
    if actions == [] then s else Final(Next(s, actions[0]), actions[1..])
  }

  lemma InitialInv(s: State)
    requires Initial(s)
    ensures Inv(s)
  {
    assert Used(s) == 0;
  }

  lemma {:induction false} RunKeeps(s: State, actions: seq<Action>)
    requires Inv(s) && Runs(s, actions)
    ensures Inv(Final(s, actions))
    decreases |actions|
  {
    hide Inv, Next, Enabled;
    if actions != [] {
      StepKeeps(s, actions[0]);
      RunKeeps(Next(s, actions[0]), actions[1..]);
    }
  }

  /** What the receiving side has taken so far, finished calls and the one in progress. */
  function Received(s: State): seq<Byte> {
    s.delivered + if s.receiver.Receiving? then s.receiver.out else []
  }

  /** Nothing is lost, duplicated or reordered in any interleaving: what was received is always a
      prefix of what was sent, what is delivered and what is in the ring make up exactly what was sent,
      and occupied and free slots always add up to 255. */
  lemma StreamPreserved(start: State, actions: seq<Action>)
    requires Initial(start) && Runs(start, actions)
    ensures
      var s := Final(start, actions);
      && InRange(s)
      && s.sent == s.delivered + Content(s)
      && Received(s) <= s.sent
      && Used(s) + Free(s) == 255
  {
    InitialInv(start);
    RunKeeps(start, actions);
    ReceivedPrefix(Final(start, actions));
  }

  lemma ReceivedPrefix(s: State)
    requires Inv(s)
    ensures Received(s) <= s.sent
    ensures Used(s) + Free(s) == MAILBOX_SIZE - 1
  {
    hide Slot, Used, Free;
    UsedAndFree(s);
    if s.receiver.Receiving? {
      var n := |s.receiver.out|;
      RingAppend(s.data, s.tail, n, Used(s) - n);
    }
  }

  /** A send that fits the free space seen when it starts can never overwrite a byte that has not been
      taken, however the receiver moves meanwhile: every write of the sender lands outside the content. */
  lemma SenderWritesOutsideContent(start: State, actions: seq<Action>, k: nat)
    requires Initial(start) && Runs(start, actions)
    requires Enabled(Final(start, actions), CopyIn) && k < Used(Final(start, actions))
    ensures
      var s := Final(start, actions);
      Slot(s.head, s.sender.copiedIn) != Slot(s.tail, k)
  {
    InitialInv(start);
    RunKeeps(start, actions);
    WriteOutside(Final(start, actions), k);
  }

  lemma WriteOutside(s: State, k: nat)
    requires Inv(s) && Enabled(s, CopyIn) && k < Used(s)
    ensures Slot(s.head, s.sender.copiedIn) != Slot(s.tail, k)
  {
    hide Slot, Used, Free;
    UsedAndFree(s);
    SlotSlot(s.tail, Used(s), s.sender.copiedIn);
    SlotDistinct(s.tail, k, Used(s) + s.sender.copiedIn);
  }

  // ---------- A send of any length ----------

  /** The ring after `buf` has been copied in from `base`, byte by byte, whatever it lands on. */
  function Written(data: seq<Byte>, base: nat, buf: seq<Byte>): (r: seq<Byte>)
    requires |data| == MAILBOX_SIZE
    ensures |r| == MAILBOX_SIZE
  {
    if buf == [] then data
    else
      var n := |buf| - 1;
      Written(data, base, buf[..n])[Slot(base, n) := buf[n]]
  }

  /** What mbox_send leaves, without anyone having checked the free space. */
  function SentAnyway(s: State, buf: seq<Byte>): State
    requires InRange(s)
  {
    s.(head := Slot(s.head, |buf|), data := Written(s.data, s.head, buf))
  }

  lemma {:induction false} WrittenRing(data: seq<Byte>, base: nat, buf: seq<Byte>)
    requires |data| == MAILBOX_SIZE && |buf| < MAILBOX_SIZE
    ensures Ring(Written(data, base, buf), base, |buf|) == buf
  {
    hide Slot;
    if buf != [] {
      var n := |buf| - 1;
      var before := Written(data, base, buf[..n]);
      WrittenRing(data, base, buf[..n]);
      RingUnwritten(before, base, n, n, buf[n]);
      RingAppend(before[Slot(base, n) := buf[n]], base, n, 1);
      SlotSlot(base, n, 0);
    }
  }

  lemma {:induction false} WrittenElsewhere(data: seq<Byte>, base: nat, n: nat, buf: seq<Byte>)
    requires |data| == MAILBOX_SIZE && n + |buf| < MAILBOX_SIZE
    ensures Ring(Written(data, Slot(base, n), buf), base, n) == Ring(data, base, n)
  {
    hide Slot;
    if buf != [] {
      var k := |buf| - 1;
      WrittenElsewhere(data, base, n, buf[..k]);
      SlotSlot(base, n, k);
      RingUnwritten(Written(data, Slot(base, n), buf[..k]), base, n, n + k, buf[k]);
    }
  }

  /** The bytes end up behind the content exactly when the free space was enough for them. */
  lemma SendFitsIff(s: State, buf: seq<Byte>)
    requires InRange(s)
    ensures Content(SentAnyway(s, buf)) == Content(s) + buf <==> |buf| <= Free(s)
  {
    hide Slot, Used, Free;
    var t, used := SentAnyway(s, buf), Used(s);
    UsedAndFree(s);
    UsedAndFree(t);
    if |buf| <= Free(s) {
      SlotSlot(s.tail, used, |buf|);
      UsedFromSlot(t, used + |buf|);
      RingAppend(t.data, s.tail, used, |buf|);
      WrittenRing(s.data, s.head, buf);
      WrittenElsewhere(s.data, s.tail, used, buf);
    }
  }

  // ---------- The calls ----------

  /** mailbox_t.  `model` is the state whose steps the calls take. */
  class MailboxRing {
    var head: nat
    var tail: nat
    const data: array<Byte>
    ghost var model: State

    ghost predicate Valid()
      reads this, data
    {
      head == model.head && tail == model.tail && data[..] == model.data && Inv(model)
    }

    constructor ()
      ensures Valid() && fresh(data) && Initial(model)
    {
      head, tail := 0, 0;
      data := new Byte[MAILBOX_SIZE](_ => 0);
      model := State(0, 0, seq(MAILBOX_SIZE, _ => 0), NotSending, NotReceiving, [], []);
      new;
      InitialInv(model);
    }

    /** mbox_free */
    method FreeSpace() returns (free: nat)
      requires Valid()
      ensures free == MAILBOX_SIZE - 1 - |Content(model)|
    {
      free := (tail - head - 1) % TWO_TO_32 % MAILBOX_SIZE;
      UsedAndFree(model);
    }

    /** mbox_send.  It checks nothing, so what it leaves is stated for every length.  For a caller that has
        checked mbox_free, whatever the receiving side is in the middle of, the steps of the sender add the
        bytes behind the content. */
    method Send(buf: seq<Byte>)
      requires Valid() && model.sender.NotSending?
      modifies this`head, this`model, data
      ensures tail == old(tail) && head == SentAnyway(old(model), buf).head
      ensures data[..] == SentAnyway(old(model), buf).data
      ensures |buf| <= old(Free(model)) ==>
        && Valid() && model.sender.NotSending? && model.receiver == old(model.receiver)
        && model.sent == old(model.sent) + buf && model.delivered == old(model.delivered)
        && Content(model) == old(Content(model)) + buf
    {
      hide Inv, Free, Used;
      ghost var before, fits := model, |buf| <= Free(model);
      Stream(before);
      if fits { Step(BeginSend(buf)); }
      for i := 0 to |buf|
        invariant head == old(head) && tail == old(tail) && data[..] == Written(before.data, before.head, buf[..i])
        invariant fits ==> Valid() && model == before.(sender := Sending(buf, i), data := model.data)
      {
        if fits { Step(CopyIn); }
        var idx := (head + i) % MAILBOX_SIZE;
        data[idx] := buf[i];
        assert buf[..i + 1][..i] == buf[..i];
      }
      assert buf[..|buf|] == buf;
      if fits { Step(PublishHead); }
      head := (head + |buf|) % MAILBOX_SIZE;
      if fits { ContentIs(model, old(Content(model)) + buf); }
    }

    /** One step of the model. */
    ghost method Step(a: Action)
      requires Inv(model) && Enabled(model, a)
      modifies this`model
      ensures Inv(model) && InRange(old(model)) && model == Next(old(model), a)
    {
      StepKeeps(model, a);
      model := Next(model, a);
    }

    /** mbox_recv: the oldest bytes of the content, as many as there are and the caller has room for. */
    method Recv(buf: array<Byte>, max: nat) returns (copy: nat)
      requires Valid() && model.receiver.NotReceiving? && buf.Length >= max && buf != data
      modifies this`tail, this`model, buf
      ensures Valid() && model.receiver.NotReceiving?
      ensures model.sender == old(model.sender) && model.sent == old(model.sent)
      ensures copy == if |old(Content(model))| > max then max else |old(Content(model))|
      ensures buf[..copy] == old(Content(model))[..copy] && buf[copy..] == old(buf[copy..])
      ensures Content(model) == old(Content(model))[copy..]
    {
      hide Inv, Free, Used;
      ghost var before := model;
      Stream(model);
      var used := UsedSpace();
      assert used == |Content(model)|;
      copy := if used > max then max else used;
      Step(BeginReceive(max));
      for i := 0 to copy
        invariant Valid() && data[..] == old(data[..])
        invariant model == before.(receiver := Receiving(copy, buf[..i]))
        invariant buf[copy..] == old(buf[copy..])
      {
        var idx := (tail + i) % MAILBOX_SIZE;
        Step(CopyOut);
        ghost var out := buf[..i];
        buf[i] := data[idx];
        assert buf[..i + 1] == out + [data[idx]];
      }
      Step(PublishTail);
      tail := (tail + copy) % MAILBOX_SIZE;
      Stream(model);
      ContentSplits(before, model, buf[..copy]);
    }

    /** mbox_used */
    method UsedSpace() returns (used: nat)
      requires Valid()
      ensures used == |model.sent| - |model.delivered|
    {
      used := (head - tail) % TWO_TO_32 % MAILBOX_SIZE;
    }
  }

  lemma Stream(s: State)
    requires Inv(s)
    ensures InRange(s) && s.sent == s.delivered + Content(s)
  {}

  lemma ContentSplits(s: State, t: State, taken: seq<Byte>)
    requires InRange(s) && InRange(t) && s.sent == s.delivered + Content(s) && t.sent == t.delivered + Content(t)
    requires t.sent == s.sent && t.delivered == s.delivered + taken
    ensures |taken| <= |Content(s)| && taken == Content(s)[..|taken|] && Content(t) == Content(s)[|taken|..]
  {
    assert s.sent == s.delivered + (taken + Content(t));
    assert s.sent[|s.delivered|..] == Content(s);
    assert s.sent[|s.delivered|..] == taken + Content(t);
  }

  lemma ContentIs(s: State, c: seq<Byte>)
    requires Inv(s) && s.sent == s.delivered + c
    ensures Content(s) == c
  {
    assert s.sent[|s.delivered|..] == c;
  }
}
