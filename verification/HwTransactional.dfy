/** Retry and fallback around hardware transactions (src/drivers/hw_transactional.c).  The hardware is
    an adversary: it decides for every attempt whether it commits or aborts, and with which code.  An
    aborted attempt leaves memory as it was when the attempt began. */
module HwTransactional {
  import opened MachineTypes

  /** What becomes of one attempt. */
  datatype Attempt =
    | Commits
    | Aborts(code: Status)

  newtype Status = x: int | 0 <= x < 0x1_0000_0000

  const RTM_STARTED: Status := 0xFFFFFFFF
  const TX_STATUS_UNSUPPORTED: Status := 7

  predicate AbortExplicit(code: Status) { code % 2 == 1 }
  predicate AbortRetry(code: Status) { code / 2 % 2 == 1 }
  predicate AbortConflict(code: Status) { code / 4 % 2 == 1 }
  predicate AbortCapacity(code: Status) { code / 8 % 2 == 1 }
  predicate AbortDebug(code: Status) { code / 16 % 2 == 1 }

  /** hw_transactional_should_retry */
  predicate ShouldRetry(code: Status, retryCount: nat) {
    if AbortExplicit(code) then false
    else if AbortRetry(code) then true
    else if AbortConflict(code) then retryCount < 8
    else if AbortCapacity(code) || AbortDebug(code) then false
    else retryCount < 3
  }

  /** What the hardware will do, attempt by attempt. */
  type Adversary = nat -> Attempt

  /** Real hardware never reports an abort with the code that means "started". */
  ghost predicate Wellbehaved(hw: Adversary) {
    forall i: nat :: hw(i).Aborts? ==> hw(i).code != RTM_STARTED
  }

  const COUNTER_MAX := 0xFFFFFFFF

  /** What a 32-bit counter shows after `n` increments. */
  function Shown(n: nat): nat {
    n % 0x1_0000_0000
  }

  /** One more, in a 32-bit counter. */
  function Count(counter: nat): nat {
    Shown(counter + 1)
  }

  lemma CountShown(n: nat)
    ensures Count(Shown(n)) == Shown(n + 1)
  {}

  /** Attempt `n` comes back with an abort code that is retried. */
  ghost predicate Retried(hw: Adversary, n: nat) {
    hw(n).Aborts? && ShouldRetry(hw(n).code, Shown(n))
  }

  /** The retry limit allows attempt `n`.  The largest limit is none: no 32-bit counter exceeds it. */
  predicate Allowed(maxRetries: nat, n: nat) {
    maxRetries == COUNTER_MAX || n <= maxRetries
  }

  /** Attempt `n` is made: every earlier attempt aborted with a code that is retried. */
  ghost predicate Reached(hw: Adversary, maxRetries: nat, n: nat) {
    Allowed(maxRetries, n) && AllRetried(hw, n)
  }

  ghost predicate AllRetried(hw: Adversary, n: nat) {
    forall i: nat :: i < n ==> Retried(hw, i)
  }

  /** Attempt `n` is made and is the last: it commits, its abort is not retried, or retries are used up. */
  ghost predicate LastAttempt(hw: Adversary, maxRetries: nat, n: nat) {
    Reached(hw, maxRetries, n) && (!Retried(hw, n) || !Allowed(maxRetries, n + 1))
  }

  /** There is a limit, or an attempt that is not retried. */
  ghost predicate Stops(hw: Adversary, maxRetries: nat) {
    maxRetries < COUNTER_MAX || exists n: nat :: !Retried(hw, n)
  }

  /** The loop of hw_transactional_execute ends exactly when there is a limit or an attempt that is not
      retried. */
  lemma EndsIff(hw: Adversary, maxRetries: nat)
    requires maxRetries <= COUNTER_MAX
    ensures (exists n: nat :: LastAttempt(hw, maxRetries, n)) <==> Stops(hw, maxRetries)
  {
    if maxRetries < COUNTER_MAX {
      FirstStop(hw, maxRetries, 0, maxRetries);
    } else if n: nat :| !Retried(hw, n) {
      FirstStop(hw, maxRetries, 0, n);
    }
  }

  lemma {:induction false} FirstStop(hw: Adversary, maxRetries: nat, from: nat, stop: nat)
    requires from <= stop && Reached(hw, maxRetries, from)
    requires if maxRetries < COUNTER_MAX then stop == maxRetries else !Retried(hw, stop)
    requires maxRetries <= COUNTER_MAX
    ensures exists n: nat :: LastAttempt(hw, maxRetries, n)
    decreases stop - from
  {
    hide Retried;
    if !Retried(hw, from) || from == stop {
      assert LastAttempt(hw, maxRetries, from);
    } else {
      FirstStop(hw, maxRetries, from + 1, stop);
    }
  }

  /** Hardware that always aborts and always asks for a retry. */
  function Insisting(n: nat): Attempt {
    Aborts(2)
  }

  /** With the largest limit it is retried forever. */
  lemma RetriedForever()
    ensures !Stops(Insisting, COUNTER_MAX) && forall n: nat :: Reached(Insisting, COUNTER_MAX, n)
  {
    assert forall n: nat :: Retried(Insisting, n);
  }

  /** The transaction commits on some attempt that is made. */
  ghost predicate EventuallyCommits(hw: Adversary, maxRetries: nat) {
    exists n: nat :: Reached(hw, maxRetries, n) && hw(n).Commits?
  }

  /** Operations that have taken effect on the data, by the path they took. */
  datatype Effect = ByTransaction | ByFallback

  /** How a call ends.  The averages of the statistics are divisions, and dividing by zero traps. */
  datatype Outcome = Returned(ok: bool) | DivideError

  /** When a call of hw_transactional_execute_with_fallback traps: the count it divides by is zero, either
      because it has wrapped or because a missing transaction function did not raise it. */
  predicate Traps(commits: bool, hasTransaction: bool, hasFallback: bool, commitCount: nat, fallbackCount: nat) {
    if commits then commitCount == COUNTER_MAX
    else hasFallback && fallbackCount == if hasTransaction then COUNTER_MAX else 0
  }

  class Runtime<Data(!new)> {
    const hasRtm: bool
    var forceFallback: bool
    var data: Data
    var nestLevel: nat
    // tsx_stats: 32-bit counters.
    var totalAttempts: nat
    var successfulCommits: nat
    var fallbackExecutions: nat
    /** The attempts made, without a width. */
    ghost var attempts: nat
    /** The operations that have taken effect, in order. */
    ghost var effects: seq<Effect>

    ghost predicate Valid()
      reads this
    {
      && totalAttempts == Shown(attempts)
      && successfulCommits <= COUNTER_MAX && fallbackExecutions <= COUNTER_MAX && nestLevel < 0x100
    }

    constructor (rtm: bool, initial: Data)
      ensures Valid() && hasRtm == rtm && data == initial && nestLevel == 0 && effects == []
      ensures !forceFallback && attempts == 0 && successfulCommits == 0 && fallbackExecutions == 0
    {
      hasRtm := rtm;
      forceFallback := false;
      data := initial;
      nestLevel, totalAttempts, successfulCommits, fallbackExecutions := 0, 0, 0, 0;
      attempts, effects := 0, [];
    }

    predicate Supported()
      reads this
    {
      hasRtm && !forceFallback
    }

    /** hw_transactional_begin, seen by its caller: an attempt that will abort comes back here with the
        abort code, with everything it did undone. */
    method Begin(attempt: Attempt) returns (status: Status)
      requires Valid() && (attempt.Aborts? ==> attempt.code != RTM_STARTED)
      modifies this`totalAttempts, this`nestLevel, this`attempts
      ensures Valid()
      ensures !Supported() ==> status == 7 && attempts == old(attempts)
      ensures Supported() ==> attempts == old(attempts) + 1
      ensures status == RTM_STARTED <==> Supported() && attempt.Commits?
      ensures Supported() && attempt.Aborts? ==> status == attempt.code
      ensures nestLevel == if status == RTM_STARTED then (old(nestLevel) + 1) % 0x100 else old(nestLevel)
    {
      if !hasRtm || forceFallback { return TX_STATUS_UNSUPPORTED; }
      CountShown(attempts);
      totalAttempts, attempts := Count(totalAttempts), attempts + 1;
      match attempt
      case Commits =>
        nestLevel := (nestLevel + 1) % 0x100;
        status := RTM_STARTED;
      case Aborts(code) =>
        status := code;
    }

    /** hw_transactional_end: leaving the outermost level counts a commit and divides by the count. */
    method End() returns (trapped: bool)
      requires Valid()
      modifies this`nestLevel, this`successfulCommits
      ensures Valid()
      ensures nestLevel == if hasRtm && old(nestLevel) > 0 then old(nestLevel) - 1 else old(nestLevel)
      ensures successfulCommits ==
        if hasRtm && old(nestLevel) == 1 then Count(old(successfulCommits)) else old(successfulCommits)
      ensures trapped <==> hasRtm && old(nestLevel) == 1 && old(successfulCommits) == COUNTER_MAX
    {
      if !hasRtm || nestLevel == 0 { return false; }
      nestLevel := nestLevel - 1;
      if nestLevel == 0 {
        successfulCommits := Count(successfulCommits);
        if successfulCommits == 0 { return true; }
      }
      trapped := false;
    }

    /** One turn of the loop of hw_transactional_execute that does not give up: attempt `n`. */
    method Attempt(f: Data -> Data, hw: Adversary, n: nat) returns (status: Status, trapped: bool)
      requires Valid() && Wellbehaved(hw) && nestLevel == 0
      modifies this
      ensures Valid() && nestLevel == 0 && forceFallback == old(forceFallback)
      ensures fallbackExecutions == old(fallbackExecutions)
      ensures attempts == old(attempts) + if Supported() then 1 else 0
      ensures
        var commits := Supported() && hw(n).Commits?;
        && (status == RTM_STARTED <==> commits)
        && (!commits ==> status == if Supported() then hw(n).code else TX_STATUS_UNSUPPORTED)
        && data == (if commits then f(old(data)) else old(data))
        && effects == old(effects) + (if commits then [ByTransaction] else [])
        && successfulCommits == (if commits then Count(old(successfulCommits)) else old(successfulCommits))
        && (trapped <==> commits && old(successfulCommits) == COUNTER_MAX)
    {
      hide Count, Shown;
      status := Begin(hw(n));
      trapped := false;
      if status == RTM_STARTED {
        data := f(data);
        effects := effects + [ByTransaction];
        trapped := End();
      }
    }

    /** hw_transactional_execute */
    method Execute(transaction: Option<Data -> Data>, hw: Adversary, maxRetries: nat) returns (outcome: Outcome)
      requires Valid() && Wellbehaved(hw) && nestLevel == 0
      requires maxRetries <= COUNTER_MAX
      requires transaction.Some? && Supported() ==> Stops(hw, maxRetries)
      modifies this
      ensures Valid() && nestLevel == 0 && forceFallback == old(forceFallback)
      ensures
        var commits := transaction.Some? && Supported() && EventuallyCommits(hw, maxRetries);
        && outcome == (if Traps(commits, transaction.Some?, false, old(successfulCommits), 0) then DivideError
                       else Returned(commits))
        && data == (if commits then transaction.value(old(data)) else old(data))
        && effects == old(effects) + (if commits then [ByTransaction] else [])
        && successfulCommits == (if commits then Count(old(successfulCommits)) else old(successfulCommits))
        && fallbackExecutions == if !commits && transaction.Some? then Count(old(fallbackExecutions))
                                 else old(fallbackExecutions)
      ensures maxRetries < COUNTER_MAX ==> attempts <= old(attempts) + maxRetries + 1
      ensures transaction.None? || !Supported() ==> attempts == old(attempts)
      ensures transaction.Some? && Supported() ==>
        exists n: nat :: LastAttempt(hw, maxRetries, n) && attempts == old(attempts) + n + 1
    {
      if transaction.None? { return Returned(false); }
      hide ShouldRetry, Retried, AllRetried, Shown, LastAttempt, EventuallyCommits;
      CountStart(hw);
      var retryCount := 0;
      var n := 0; // the hardware's count of the attempts
      ghost var stop: nat := maxRetries;
      if Supported() && maxRetries == COUNTER_MAX {
        stop :| !Retried(hw, stop);
      }
      while retryCount <= maxRetries
        invariant Valid() && nestLevel == 0 && forceFallback == old(forceFallback)
        invariant data == old(data) && effects == old(effects)
        invariant successfulCommits == old(successfulCommits) && fallbackExecutions == old(fallbackExecutions)
        invariant retryCount == Shown(n) <= COUNTER_MAX && n <= stop + 1
        invariant maxRetries < COUNTER_MAX ==> n == retryCount
        invariant AllRetried(hw, n)
        invariant n > 0 ==> Supported()
        invariant attempts == old(attempts) + n
        decreases stop + 1 - n
      {
        ShouldRetryIs(hw, n);
        var status, trapped := Attempt(transaction.value, hw, n);
        if status == RTM_STARTED {
          EndsHere(hw, maxRetries, n);
          return if trapped then DivideError else Returned(true);
        }
        if !ShouldRetry(status, retryCount) {
          if Supported() {
            EndsHere(hw, maxRetries, n);
          }
          fallbackExecutions := Count(fallbackExecutions);
          return Returned(false);
        }
        NextAttempt(hw, n);
        retryCount := Count(retryCount);
        n := n + 1;
      }
      UsedUp(hw, maxRetries, n);
      fallbackExecutions := Count(fallbackExecutions);
      outcome := Returned(false);
    }

    /** hw_transactional_execute_with_fallback.  With both functions given, exactly one of them takes
        effect, exactly once, and it does so even in the calls that trap afterwards. */
    method ExecuteWithFallback(transaction: Option<Data -> Data>, fallback: Option<Data -> Data>,
                               hw: Adversary, maxRetries: nat)
      returns (outcome: Outcome)
      requires Valid() && Wellbehaved(hw) && nestLevel == 0 && maxRetries <= COUNTER_MAX
      requires transaction.Some? && Supported() ==> Stops(hw, maxRetries)
      modifies this
      ensures Valid() && nestLevel == 0 && forceFallback == old(forceFallback)
      ensures
        var commits := transaction.Some? && Supported() && EventuallyCommits(hw, maxRetries);
        && outcome == (if Traps(commits, transaction.Some?, fallback.Some?,
                                old(successfulCommits), old(fallbackExecutions)) then DivideError
                       else Returned(commits || fallback.Some?))
        && data == (if commits then transaction.value(old(data))
                    else if fallback.Some? then fallback.value(old(data)) else old(data))
        && effects == old(effects) + (if commits then [ByTransaction]
                                      else if fallback.Some? then [ByFallback] else [])
      ensures maxRetries < COUNTER_MAX ==> attempts <= old(attempts) + maxRetries + 1
      ensures NoRetryHints(hw) ==> attempts <= old(attempts) + 9
    {
      hide EventuallyCommits, LastAttempt;
      outcome := Execute(transaction, hw, maxRetries);
      if NoRetryHints(hw) && transaction.Some? && Supported() {
        ghost var n: nat :| LastAttempt(hw, maxRetries, n) && attempts == old(attempts) + n + 1;
        AtMostNine(hw, maxRetries, n);
      }
      if outcome == DivideError || outcome.ok { return; }
      match fallback
      case Some(f) =>
        data := f(data);
        effects := effects + [ByFallback];
        outcome := if fallbackExecutions == 0 then DivideError else Returned(true);
      case None =>
    }
  }

  // ---------- How many attempts ----------

  /** How many retries an abort code is worth, by its bits: none if the abort was explicit; no limit if the
      hardware hints at a retry; eight for a conflict; none for lack of capacity or a debug trap; otherwise
      three. */
  function Retries(code: Status): Option<nat> {
    if code % 2 == 1 then Some(0)
    else if code / 2 % 2 == 1 then None
    else if code / 4 % 2 == 1 then Some(8)
    else if code / 8 % 2 == 1 || code / 16 % 2 == 1 then Some(0)
    else Some(3)
  }

  /** An attempt is retried exactly when it aborts with a code that is worth more retries than were made. */
  lemma RetriedIff(hw: Adversary, n: nat)
    requires n <= COUNTER_MAX
    ensures Retried(hw, n) <==> hw(n).Aborts? && (Retries(hw(n).code) == None || n < Retries(hw(n).code).value)
  {}

  /** Hardware that always aborts with the same code. */
  function Always(code: Status): Adversary {
    n => Aborts(code)
  }

  /** The last attempt against hardware that always aborts with the same code: after the retries the code is
      worth, or those the caller allows if they are fewer. */
  lemma LastAttemptAgainst(code: Status, maxRetries: nat, n: nat)
    requires maxRetries <= COUNTER_MAX
    ensures LastAttempt(Always(code), maxRetries, n) <==>
      match Retries(code)
      case None => maxRetries < COUNTER_MAX && n == maxRetries
      case Some(k) => n == if k < maxRetries then k else maxRetries
  {
    hide Retries;
    var hw := Always(code);
    FewRetries(code);
    if Retries(code) == None {
      forall i: nat ensures Retried(hw, i) {
        RetriedForHint(code, i);
      }
    } else {
      var k := Retries(code).value;
      RetriedIff(hw, k);
      forall i: nat | i < k ensures Retried(hw, i) {
        RetriedIff(hw, i);
      }
      assert !Retried(hw, k);
    }
  }

  lemma FewRetries(code: Status)
    ensures Retries(code).Some? ==> Retries(code).value <= 8
  {}

  lemma RetriedForHint(code: Status, i: nat)
    requires Retries(code) == None
    ensures Retried(Always(code), i)
  {}

  /** So many attempts the driver makes against such hardware before it reports failure. */
  method ExecuteAgainst<Data(!new)>(runtime: Runtime<Data>, f: Data -> Data, code: Status, maxRetries: nat)
    returns (outcome: Outcome)
    requires runtime.Valid() && runtime.Supported() && runtime.nestLevel == 0
    requires code != RTM_STARTED && maxRetries <= COUNTER_MAX
    requires Retries(code) == None ==> maxRetries < COUNTER_MAX
    modifies runtime
    ensures outcome == Returned(false) && runtime.data == old(runtime.data)
    ensures runtime.attempts == old(runtime.attempts) + 1 +
      match Retries(code)
      case None => maxRetries
      case Some(k) => if k < maxRetries then k else maxRetries
  {
    hide Retries, Retried, Reached;
    var hw := Always(code);
    ghost var last := match Retries(code)
      case None => maxRetries
      case Some(k) => if k < maxRetries then k else maxRetries;
    LastAttemptAgainst(code, maxRetries, last);
    EndsIff(hw, maxRetries);
    assert hw(last).Aborts?;
    NoCommitAfterLast(hw, maxRetries, last);
    outcome := runtime.Execute(Some(f), hw, maxRetries);
    ghost var n: nat :| LastAttempt(hw, maxRetries, n) && runtime.attempts == old(runtime.attempts) + n + 1;
    LastAttemptAgainst(code, maxRetries, n);
  }

  /** Hardware that always commits. */
  function Committing(n: nat): Attempt {
    Commits
  }

  /** Hardware that always aborts for good. */
  function Refusing(n: nat): Attempt {
    Aborts(1)
  }

  /** Some hardware, on which the call ends, makes the call trap. */
  ghost predicate CanTrap(supported: bool, hasTransaction: bool, hasFallback: bool,
                          commitCount: nat, fallbackCount: nat, maxRetries: nat)
  {
    exists hw: Adversary :: Wellbehaved(hw) && (hasTransaction && supported ==> Stops(hw, maxRetries)) &&
      Traps(hasTransaction && supported && EventuallyCommits(hw, maxRetries), hasTransaction, hasFallback,
            commitCount, fallbackCount)
  }

  /** What a caller can check before the call: whether it can trap depends on the two counters and on which
      functions are given. */
  lemma CanTrapIff(supported: bool, hasTransaction: bool, hasFallback: bool,
                   commitCount: nat, fallbackCount: nat, maxRetries: nat)
    requires maxRetries <= COUNTER_MAX
    ensures CanTrap(supported, hasTransaction, hasFallback, commitCount, fallbackCount, maxRetries) <==>
            || (hasTransaction && supported && commitCount == COUNTER_MAX)
            || (hasFallback && fallbackCount == if hasTransaction then COUNTER_MAX else 0)
  {
    if hasTransaction && supported && commitCount == COUNTER_MAX {
      assert !Retried(Committing, 0);
      assert Reached(Committing, maxRetries, 0) && Wellbehaved(Committing);
    }
    if hasFallback && fallbackCount == if hasTransaction then COUNTER_MAX else 0 {
      assert !Retried(Refusing, 0);
      assert !EventuallyCommits(Refusing, maxRetries) && Wellbehaved(Refusing);
    }
  }

  /** On hardware that always commits, the commit that wraps the count traps. */
  method TrapsOnCommit<Data(!new)>(initial: Data, transaction: Data -> Data, maxRetries: nat)
    returns (outcome: Outcome)
    requires maxRetries <= COUNTER_MAX
    ensures outcome == DivideError
  {
    assert !Retried(Committing, 0);
    assert Reached(Committing, maxRetries, 0);
    var runtime := new Runtime(true, initial);
    runtime.successfulCommits := COUNTER_MAX;
    outcome := runtime.ExecuteWithFallback(Some(transaction), None, Committing, maxRetries);
  }

  /** The first call of a fresh runtime traps if it has a fallback but no transaction function. */
  method TrapsWithoutTransaction<Data(!new)>(initial: Data, fallback: Data -> Data, hw: Adversary, maxRetries: nat)
    returns (outcome: Outcome)
    requires Wellbehaved(hw) && maxRetries <= COUNTER_MAX
    ensures outcome == DivideError
  {
    var runtime := new Runtime(true, initial);
    outcome := runtime.ExecuteWithFallback(None, Some(fallback), hw, maxRetries);
  }

  /** With both functions given, the call that falls back for the 2^32nd time traps. */
  method TrapsOnWrap<Data(!new)>(initial: Data, transaction: Data -> Data, fallback: Data -> Data,
                                 hw: Adversary, maxRetries: nat)
    returns (outcome: Outcome)
    requires Wellbehaved(hw) && maxRetries <= COUNTER_MAX
    ensures outcome == DivideError
  {
    var runtime := new Runtime(false, initial);
    runtime.fallbackExecutions := COUNTER_MAX;
    outcome := runtime.ExecuteWithFallback(Some(transaction), Some(fallback), hw, maxRetries);
  }

  lemma EndsHere(hw: Adversary, maxRetries: nat, n: nat)
    requires maxRetries <= COUNTER_MAX && Reached(hw, maxRetries, n)
    requires !Retried(hw, n) || !Allowed(maxRetries, n + 1)
    ensures LastAttempt(hw, maxRetries, n) && (EventuallyCommits(hw, maxRetries) <==> hw(n).Commits?)
  {
    hide Retried;
    if hw(n).Aborts? {
      NoCommitAfterLast(hw, maxRetries, n);
    }
  }

  lemma CountStart(hw: Adversary)
    ensures Shown(0) == 0 && AllRetried(hw, 0)
  {}

  /** After a retried attempt: the counter goes on, and is exact up to its limit. */
  lemma NextAttempt(hw: Adversary, n: nat)
    requires AllRetried(hw, n)
    ensures !ShouldRetry(TX_STATUS_UNSUPPORTED, Shown(n))
    ensures Retried(hw, n) ==> AllRetried(hw, n + 1)
    ensures Count(Shown(n)) == Shown(n + 1) <= COUNTER_MAX
    ensures n + 1 <= COUNTER_MAX ==> Shown(n + 1) == n + 1
  {
    hide Retried;
  }

  lemma ShouldRetryIs(hw: Adversary, n: nat)
    ensures Retried(hw, n) <==> hw(n).Aborts? && ShouldRetry(hw(n).code, Shown(n))
  {}

  /** The loop has used up its retries. */
  lemma UsedUp(hw: Adversary, maxRetries: nat, n: nat)
    requires maxRetries < COUNTER_MAX && n == maxRetries + 1 && AllRetried(hw, n)
    ensures LastAttempt(hw, maxRetries, maxRetries) && !EventuallyCommits(hw, maxRetries)
  {
    assert Retried(hw, maxRetries);
    EndsHere(hw, maxRetries, maxRetries);
  }

  lemma NoCommitAfterLast(hw: Adversary, maxRetries: nat, n: nat)
    requires maxRetries <= COUNTER_MAX
    requires LastAttempt(hw, maxRetries, n) && hw(n).Aborts?
    ensures !EventuallyCommits(hw, maxRetries)
  {
    hide ShouldRetry, Shown;
    forall m: nat | Reached(hw, maxRetries, m) ensures !hw(m).Commits? {
      assert m < n ==> Retried(hw, m);
      assert n < m ==> Retried(hw, n);
    }
  }

  /** No abort code asks for a retry. */
  ghost predicate NoRetryHints(hw: Adversary) {
    forall i: nat :: hw(i).Aborts? ==> !AbortRetry(hw(i).code)
  }

  /** Without retry hints even endless conflicts are given up on the ninth attempt. */
  lemma AtMostNine(hw: Adversary, maxRetries: nat, n: nat)
    requires NoRetryHints(hw) && LastAttempt(hw, maxRetries, n)
    ensures n <= 8
  {
    assert n > 8 ==> Retried(hw, 8);
  }

  /** Hardware that always aborts for a conflict. */
  function Conflicting(n: nat): Attempt {
    Aborts(4)
  }

  /** Nine attempts do happen, and with retry hints the only limit is the caller's. */
  lemma BoundsAreTight(maxRetries: nat)
    requires 8 <= maxRetries < COUNTER_MAX
    ensures NoRetryHints(Conflicting) && LastAttempt(Conflicting, maxRetries, 8)
    ensures LastAttempt(Insisting, maxRetries, maxRetries)
  {
    assert forall n: nat :: Retried(Insisting, n);
    assert forall n: nat :: n < 8 ==> Retried(Conflicting, n);
  }
}
