/** WaitForFile: the bounded lock-retry waiter. Each attempt opens the library
    for shared read; a sharing violation sleeps and doubles the sleep, any
    other failure gives up at once, and a successful open closes the probe
    handle and reports that the file is free. */
module Waiter {
  import opened Win32

  const MaxAttempt: nat := 5
  const InitialSleep: nat := 100

  /** The sleep after the `k`-th sharing violation: InitialSleep, doubled
      once per earlier violation. */
  function SleepAfter(k: nat): (r: nat)
    ensures r >= InitialSleep
  {
    if k == 0 then InitialSleep else 2 * SleepAfter(k - 1)
  }

  /** The first `n` sleep durations of the backoff: 100, 200, 400, ... */
  function Backoff(n: nat): (r: seq<nat>)
    ensures |r| == n
    ensures forall i :: 0 <= i < n ==> r[i] == SleepAfter(i)
  {
    if n == 0 then [] else Backoff(n - 1) + [SleepAfter(n - 1)]
  }

  /** Number of consecutive sharing violations reported from attempt `from`
      on, counting no attempt at or beyond MaxAttempt. */
  function Violations(probe: nat -> Probe, from: nat): (n: nat)
    requires from <= MaxAttempt
    ensures from + n <= MaxAttempt
    ensures from + n < MaxAttempt ==> !IsSharingViolation(probe(from + n))
    decreases MaxAttempt - from
  {
    if from == MaxAttempt || !IsSharingViolation(probe(from)) then 0
    else 1 + Violations(probe, from + 1)
  }

  /** What WaitForFile returns, given the outcome `probe(k)` of its k-th open. */
  function WaitOutcome(probe: nat -> Probe): bool
  {
    var n := Violations(probe, 0);
    n < MaxAttempt && probe(n).Opened?
  }

  /** An open followed by a sleep, once for each of the first `n` sharing
      violations, with the backoff's sleeps. */
  function Retries(path: WString, n: nat): (r: seq<Call>)
    ensures |r| == 2 * n
  {
    if n == 0 then []
    else Retries(path, n - 1) + [CreateFile(path), Sleep(SleepAfter(n - 1))]
  }

  /** The calls WaitForFile makes: an open and a sleep per sharing violation,
      then, unless the attempts ran out, the open that ended the wait,
      followed by the close of the probe handle when that open succeeded. */
  function WaitTrace(path: WString, probe: nat -> Probe): seq<Call>
  {
    var n := Violations(probe, 0);
    Retries(path, n) +
      (if n == MaxAttempt then []
       else if probe(n).Opened? then [CreateFile(path), CloseHandle(path)]
       else [CreateFile(path)])
  }

  /** main.cpp WaitForFile, with each CreateFileW answered by `probe(attempt)`. */
  method WaitForFile(libraryPath: WString, probe: nat -> Probe) returns (ok: bool, calls: seq<Call>)
    ensures ok == WaitOutcome(probe)
    ensures calls == WaitTrace(libraryPath, probe)
  {
    var attempt: nat := 0;
    var sleepDuration: nat := InitialSleep;
    calls := [];
    while attempt < MaxAttempt
      invariant attempt <= MaxAttempt
      invariant forall i :: 0 <= i < attempt ==> IsSharingViolation(probe(i))
      invariant sleepDuration == SleepAfter(attempt)
      invariant calls == Retries(libraryPath, attempt)
    {
      var outcome := probe(attempt);
      calls := calls + [CreateFile(libraryPath)];
      if outcome.Failed? {
        if outcome.errorCode == ERROR_SHARING_VIOLATION {
          calls := calls + [Sleep(sleepDuration)];
          assert SleepAfter(attempt + 1) == sleepDuration * 2;
          sleepDuration := sleepDuration * 2;
          attempt := attempt + 1;
        } else {
          WaitEndsFailed(libraryPath, probe, attempt);
          return false, calls;
        }
      } else {
        WaitEndsOpened(libraryPath, probe, attempt);
        calls := calls + [CloseHandle(libraryPath)];
        return true, calls;
      }
    }
    WaitEndsExhausted(libraryPath, probe);
    return false, calls;
  }

  lemma WaitEndsFailed(path: WString, probe: nat -> Probe, n: nat)
    requires n < MaxAttempt
    requires forall i :: 0 <= i < n ==> IsSharingViolation(probe(i))
    requires probe(n).Failed? && !IsSharingViolation(probe(n))
    ensures !WaitOutcome(probe)
    ensures WaitTrace(path, probe) == Retries(path, n) + [CreateFile(path)]
  {
    WaitEndsAt(path, probe, n);
  }

  lemma WaitEndsOpened(path: WString, probe: nat -> Probe, n: nat)
    requires n < MaxAttempt
    requires forall i :: 0 <= i < n ==> IsSharingViolation(probe(i))
    requires probe(n).Opened?
    ensures WaitOutcome(probe)
    ensures WaitTrace(path, probe) == Retries(path, n) + [CreateFile(path), CloseHandle(path)]
  {
    WaitEndsAt(path, probe, n);
  }

  lemma WaitEndsExhausted(path: WString, probe: nat -> Probe)
    requires forall i :: 0 <= i < MaxAttempt ==> IsSharingViolation(probe(i))
    ensures !WaitOutcome(probe)
    ensures WaitTrace(path, probe) == Retries(path, MaxAttempt)
  {
    WaitEndsAt(path, probe, MaxAttempt);
  }

  /** A wait whose first `n` opens were sharing violations, and whose open
      `n` was not (or which ran out of attempts), ends at attempt `n`. */
  lemma WaitEndsAt(path: WString, probe: nat -> Probe, n: nat)
    requires n <= MaxAttempt
    requires forall i :: 0 <= i < n ==> IsSharingViolation(probe(i))
    requires n == MaxAttempt || !IsSharingViolation(probe(n))
    ensures WaitOutcome(probe) == (n < MaxAttempt && probe(n).Opened?)
    ensures WaitTrace(path, probe) == Retries(path, n) +
      (if n == MaxAttempt then []
       else if probe(n).Opened? then [CreateFile(path), CloseHandle(path)]
       else [CreateFile(path)])
  {
    ViolationsCount(probe, 0, n);
  }

  /** Violations counts exactly the run of sharing violations that ends at
      the first other outcome, or at MaxAttempt. */
  lemma {:induction false} ViolationsCount(probe: nat -> Probe, from: nat, n: nat)
    requires from <= n <= MaxAttempt
    requires forall i :: from <= i < n ==> IsSharingViolation(probe(i))
    requires n == MaxAttempt || !IsSharingViolation(probe(n))
    ensures Violations(probe, from) == n - from
    decreases n - from
  {
    if from < n {
      ViolationsCount(probe, from + 1, n);
    }
  }

  /** Number of open attempts in a trace. */
  function Attempts(calls: seq<Call>): nat
  {
    if calls == [] then 0
    else (if calls[0].CreateFile? then 1 else 0) + Attempts(calls[1..])
  }

  /** The sleep durations requested in a trace, in order. */
  function Sleeps(calls: seq<Call>): seq<nat>
  {
    if calls == [] then []
    else (if calls[0].Sleep? then [calls[0].ms] else []) + Sleeps(calls[1..])
  }

  lemma {:induction false} AttemptsAppend(a: seq<Call>, b: seq<Call>)
    ensures Attempts(a + b) == Attempts(a) + Attempts(b)
  {
    if a == [] {
      assert a + b == b;
    } else {
      assert (a + b)[1..] == a[1..] + b;
      AttemptsAppend(a[1..], b);
    }
  }

  /** The sleeps of a trace that starts with `c`. */
  lemma SleepsCons(c: Call, rest: seq<Call>)
    ensures Sleeps([c] + rest) == (if c.Sleep? then [c.ms] else []) + Sleeps(rest)
  {
    assert ([c] + rest)[0] == c && ([c] + rest)[1..] == rest;
  }

  lemma {:induction false} SleepsAppend(a: seq<Call>, b: seq<Call>)
    ensures Sleeps(a + b) == Sleeps(a) + Sleeps(b)
  {
    if a == [] {
      assert a + b == b;
    } else {
      var c, tl := a[0], a[1..];
      assert a == [c] + tl && a + b == [c] + (tl + b);
      SleepsAppend(tl, b);
      SleepsCons(c, tl);
      SleepsCons(c, tl + b);
      var head: seq<nat> := if c.Sleep? then [c.ms] else [];
      assert head + (Sleeps(tl) + Sleeps(b)) == (head + Sleeps(tl)) + Sleeps(b);
    }
  }

  lemma CountsOfSingle(c: Call)
    ensures Attempts([c]) == (if c.CreateFile? then 1 else 0)
    ensures Sleeps([c]) == (if c.Sleep? then [c.ms] else [])
  {
    assert [c][1..] == [];
  }

  lemma CountsOfPair(c: Call, d: Call)
    ensures Attempts([c, d]) == Attempts([c]) + Attempts([d])
    ensures Sleeps([c, d]) == Sleeps([c]) + Sleeps([d])
  {
    assert [c, d] == [c] + [d];
    AttemptsAppend([c], [d]);
    SleepsAppend([c], [d]);
  }

  lemma {:induction false} RetriesAttempts(path: WString, n: nat)
    ensures Attempts(Retries(path, n)) == n
  {
    if n > 0 {
      var last: seq<Call> := [CreateFile(path), Sleep(SleepAfter(n - 1))];
      RetriesAttempts(path, n - 1);
      AttemptsAppend(Retries(path, n - 1), last);
      CountsOfPair(last[0], last[1]);
      CountsOfSingle(last[0]);
      CountsOfSingle(last[1]);
    }
  }

  /** One retry, an open and a sleep, sleeps once. */
  lemma RetrySleeps(path: WString, ms: nat)
    ensures Sleeps([CreateFile(path), Sleep(ms)]) == [ms]
  {
    CountsOfPair(CreateFile(path), Sleep(ms));
    CountsOfSingle(CreateFile(path));
    CountsOfSingle(Sleep(ms));
  }

  lemma {:induction false} RetriesSleeps(path: WString, n: nat)
    ensures Sleeps(Retries(path, n)) == Backoff(n)
  {
    if n > 0 {
      var prior := Retries(path, n - 1);
      var last: seq<Call> := [CreateFile(path), Sleep(SleepAfter(n - 1))];
      assert Retries(path, n) == prior + last;
      RetriesSleeps(path, n - 1);
      SleepsAppend(prior, last);
      RetrySleeps(path, SleepAfter(n - 1));
      assert Backoff(n) == Backoff(n - 1) + [SleepAfter(n - 1)];
    }
  }

  lemma {:induction false} RetriesMembers(path: WString, n: nat)
    ensures forall c :: c in Retries(path, n) ==> c == CreateFile(path) || c.Sleep?
  {
    if n > 0 {
      RetriesMembers(path, n - 1);
    }
  }

  /** The call that ends a wait, if the attempts did not run out. */
  function FinalCalls(path: WString, probe: nat -> Probe): seq<Call>
  {
    var n := Violations(probe, 0);
    if n == MaxAttempt then []
    else if probe(n).Opened? then [CreateFile(path), CloseHandle(path)]
    else [CreateFile(path)]
  }

  lemma WaitTraceSplit(path: WString, probe: nat -> Probe)
    ensures WaitTrace(path, probe) == Retries(path, Violations(probe, 0)) + FinalCalls(path, probe)
  {
  }

  /** A wait makes one open per sharing violation plus the open that ended it. */
  lemma WaitTraceAttempts(path: WString, probe: nat -> Probe)
    ensures var n := Violations(probe, 0);
      Attempts(WaitTrace(path, probe)) == (if n == MaxAttempt then n else n + 1)
  {
    var n := Violations(probe, 0);
    var tail := FinalCalls(path, probe);
    WaitTraceSplit(path, probe);
    RetriesAttempts(path, n);
    AttemptsAppend(Retries(path, n), tail);
    if |tail| == 2 {
      CountsOfPair(tail[0], tail[1]);
      CountsOfSingle(tail[0]);
      CountsOfSingle(tail[1]);
    } else if |tail| == 1 {
      CountsOfSingle(tail[0]);
    }
  }

  /** A wait sleeps once per sharing violation, with the doubling backoff. */
  lemma WaitTraceSleeps(path: WString, probe: nat -> Probe)
    ensures Sleeps(WaitTrace(path, probe)) == Backoff(Violations(probe, 0))
  {
    var n := Violations(probe, 0);
    var tail := FinalCalls(path, probe);
    WaitTraceSplit(path, probe);
    RetriesSleeps(path, n);
    SleepsAppend(Retries(path, n), tail);
    if |tail| == 2 {
      CountsOfPair(tail[0], tail[1]);
      CountsOfSingle(tail[0]);
      CountsOfSingle(tail[1]);
    } else if |tail| == 1 {
      CountsOfSingle(tail[0]);
    }
    assert Backoff(n) + [] == Backoff(n);
  }

  /** A wait touches nothing but the probe of `path`, and begins with an open. */
  lemma WaitTraceMembers(path: WString, probe: nat -> Probe)
    ensures forall c :: c in WaitTrace(path, probe) ==> c == CreateFile(path) || c == CloseHandle(path) || c.Sleep?
    ensures |WaitTrace(path, probe)| >= 1 && WaitTrace(path, probe)[0] == CreateFile(path)
  {
    var n := Violations(probe, 0);
    WaitTraceSplit(path, probe);
    RetriesMembers(path, n);
    if n > 0 {
      RetriesFirst(path, n);
    }
  }

  /** The shape of every wait: between one and MaxAttempt opens, exactly one
      sleep per sharing violation with the doubling backoff, and nothing but
      the probe of `path`. */
  lemma WaitTraceShape(path: WString, probe: nat -> Probe)
    ensures 1 <= Attempts(WaitTrace(path, probe)) <= MaxAttempt
    ensures Sleeps(WaitTrace(path, probe)) == Backoff(Violations(probe, 0))
    ensures forall c :: c in WaitTrace(path, probe) ==> c == CreateFile(path) || c == CloseHandle(path) || c.Sleep?
  {
    WaitTraceAttempts(path, probe);
    WaitTraceSleeps(path, probe);
    WaitTraceMembers(path, probe);
  }

  /** A wait succeeds exactly when it closes a probe handle, and a
      successful wait ends with that close. */
  lemma WaitClosesOnSuccess(path: WString, probe: nat -> Probe)
    ensures WaitOutcome(probe) <==> CloseHandle(path) in WaitTrace(path, probe)
    ensures WaitOutcome(probe) ==>
      |WaitTrace(path, probe)| >= 2 && WaitTrace(path, probe)[|WaitTrace(path, probe)| - 1] == CloseHandle(path)
  {
    var n := Violations(probe, 0);
    WaitTraceSplit(path, probe);
    RetriesMembers(path, n);
  }

  lemma {:induction false} RetriesFirst(path: WString, n: nat)
    requires n > 0
    ensures Retries(path, n)[0] == CreateFile(path)
  {
    if n > 1 {
      RetriesFirst(path, n - 1);
    }
  }

  /** The sleeps a wait can request are a prefix of 100, 200, 400, 800, 1600. */
  lemma BackoffSchedule(n: nat)
    requires n <= MaxAttempt
    ensures Backoff(n) == [100, 200, 400, 800, 1600][..n]
  {
    assert SleepAfter(1) == 200 && SleepAfter(2) == 400 && SleepAfter(3) == 800 && SleepAfter(4) == 1600;
    assert Backoff(MaxAttempt) == [100, 200, 400, 800, 1600];
    assert Backoff(n) == Backoff(MaxAttempt)[..n];
  }

  /** Five sharing violations in a row: WaitForFile gives up after five
      opens, having slept after each of them, the fifth included. */
  lemma ExhaustedWaitFails(path: WString, probe: nat -> Probe)
    requires forall i :: 0 <= i < MaxAttempt ==> IsSharingViolation(probe(i))
    ensures !WaitOutcome(probe)
    ensures Attempts(WaitTrace(path, probe)) == MaxAttempt
    ensures Sleeps(WaitTrace(path, probe)) == [100, 200, 400, 800, 1600]
  {
    assert Violations(probe, 0) == MaxAttempt;
    WaitTraceAttempts(path, probe);
    WaitTraceSleeps(path, probe);
    BackoffSchedule(MaxAttempt);
  }

  /** An error other than a sharing violation at attempt `k` ends the wait
      with FALSE at once: no sleep on that attempt and no further attempt. */
  lemma OtherErrorIsTerminal(path: WString, probe: nat -> Probe, k: nat)
    requires k < MaxAttempt
    requires forall i :: 0 <= i < k ==> IsSharingViolation(probe(i))
    requires probe(k).Failed? && !IsSharingViolation(probe(k))
    ensures !WaitOutcome(probe)
    ensures Attempts(WaitTrace(path, probe)) == k + 1
    ensures Sleeps(WaitTrace(path, probe)) == Backoff(k)
    ensures WaitTrace(path, probe)[|WaitTrace(path, probe)| - 1] == CreateFile(path)
  {
    assert Violations(probe, 0) == k;
    WaitTraceAttempts(path, probe);
    WaitTraceSleeps(path, probe);
    WaitTraceSplit(path, probe);
  }

  /** The first successful open at attempt `k` ends the wait with TRUE; the
      probe handle is closed and no later attempt is made. */
  lemma FirstOpenSucceeds(path: WString, probe: nat -> Probe, k: nat)
    requires k < MaxAttempt
    requires forall i :: 0 <= i < k ==> IsSharingViolation(probe(i))
    requires probe(k).Opened?
    ensures WaitOutcome(probe)
    ensures Attempts(WaitTrace(path, probe)) == k + 1
    ensures Sleeps(WaitTrace(path, probe)) == Backoff(k)
    ensures WaitTrace(path, probe)[|WaitTrace(path, probe)| - 2..] == [CreateFile(path), CloseHandle(path)]
  {
    assert Violations(probe, 0) == k;
    WaitTraceAttempts(path, probe);
    WaitTraceSleeps(path, probe);
    WaitTraceSplit(path, probe);
  }

  /** Attempt `k` is within the budget and opens the file after nothing but
      sharing violations. */
  predicate OpensAt(probe: nat -> Probe, k: nat)
  {
    k < MaxAttempt && probe(k).Opened? && forall i :: 0 <= i < k ==> IsSharingViolation(probe(i))
  }

  /** WaitForFile reports success exactly when some attempt within the
      budget opens the file after nothing but sharing violations. */
  lemma WaitOutcomeExactly(probe: nat -> Probe)
    ensures WaitOutcome(probe) <==> exists k :: OpensAt(probe, k)
  {
    var n := Violations(probe, 0);
    if WaitOutcome(probe) {
      assert OpensAt(probe, n);
    }
    if k :| OpensAt(probe, k) {
      ViolationsCount(probe, 0, k);
    }
  }

  /** Sharing violations on attempts 1-4, open on attempt 5: success after
      five opens with sleeps 100, 200, 400 and 800 between them. */
  lemma FifthAttemptSucceeds(path: WString)
    ensures var probe := (i: nat) => if i < 4 then Failed(ERROR_SHARING_VIOLATION) else Opened;
      && WaitOutcome(probe)
      && Attempts(WaitTrace(path, probe)) == 5
      && Sleeps(WaitTrace(path, probe)) == [100, 200, 400, 800]
  {
    var probe := (i: nat) => if i < 4 then Failed(ERROR_SHARING_VIOLATION) else Opened;
    FirstOpenSucceeds(path, probe, 4);
    BackoffSchedule(4);
  }
}
