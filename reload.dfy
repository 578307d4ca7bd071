/** The body of Run: stage and load the library once, then for every batch of
    change records read from the library's directory, walk the records and,
    for each one naming the library, free the held module, wait for the file
    and copy and load it again. The module handle is the one loaded at
    start-up for the whole run: the code never assigns it again, so a later
    match frees that same, already freed, handle and every reloaded handle is
    dropped. The model keeps this behaviour. */
module Reload {
  import opened Win32
  import opened Notify
  import opened Waiter
  import opened Stager
  import opened Walk

  /** Size of the BYTE buffer ReadDirectoryChangesW fills. */
  const BufferSize: nat := 8192

  /** What Run computes once from its argument: the library's absolute path,
      its file name, and the staging path in the temporary directory. */
  datatype Config = Config(libraryPath: WString, libraryName: WString, destinationPath: WString)

  /** The OS's answers during the reload step for one record: whether
      FreeLibrary succeeds, the outcome of each open WaitForFile makes,
      whether copy_file succeeds, and what LoadLibraryW returns. */
  datatype StepEnv = StepEnv(freeOk: bool, probe: nat -> Probe, copyOk: bool, loaded: Option<Handle>)

  datatype StepResult = StepResult(aborted: bool, calls: seq<Call>)

  /** The reload step for one record named `name`, while `libraryHandle` is
      the handle Run holds. `aborted` means the FreeLibrary call failed and
      Run returns. */
  function Step(cfg: Config, libraryHandle: Option<Handle>, name: WString, env: StepEnv): StepResult
  {
    if name != cfg.libraryName then StepResult(false, [])
    else
      var freed := if libraryHandle.Some? then [FreeLibrary(libraryHandle.value)] else [];
      if libraryHandle.Some? && !env.freeOk then StepResult(true, freed)
      else
        var staged := if WaitOutcome(env.probe) then StageTrace(cfg.libraryPath, cfg.destinationPath, env.copyOk) else [];
        StepResult(false, freed + WaitTrace(cfg.libraryPath, env.probe) + staged)
  }

  /** main.cpp Run, the handling of one record. The handle CopyAndLoadLibrary
      returns is discarded and `libraryHandle` is left as it was. */
  method ReloadStep(cfg: Config, libraryHandle: Option<Handle>, name: WString, env: StepEnv)
    returns (aborted: bool, calls: seq<Call>)
    ensures StepResult(aborted, calls) == Step(cfg, libraryHandle, name, env)
  {
    aborted, calls := false, [];
    if cfg.libraryName == name {
      if libraryHandle != None {
        calls := calls + [FreeLibrary(libraryHandle.value)];
        if !env.freeOk {
          return true, calls;
        }
      }
      var success, waitCalls := WaitForFile(cfg.libraryPath, env.probe);
      calls := calls + waitCalls;
      if success {
        var discarded, stageCalls := CopyAndLoadLibrary(cfg.libraryPath, cfg.destinationPath, env.copyOk, env.loaded);
        calls := calls + stageCalls;
      }
    }
  }

  datatype BatchResult = BatchResult(aborted: bool, processed: nat, calls: seq<Call>)

  /** The reload steps for `records` in order, the one for a record at byte
      offset `q` answered by `env(q)`,
      stopping after a step that aborts. */
  function StepAll(cfg: Config, libraryHandle: Option<Handle>, records: seq<Entry>, env: nat -> StepEnv): (r: BatchResult)
    ensures r.processed <= |records|
    ensures !r.aborted ==> r.processed == |records|
    decreases |records|
  {
    if records == [] then BatchResult(false, 0, [])
    else
      var prior := StepAll(cfg, libraryHandle, records[..|records| - 1], env);
      if prior.aborted then prior
      else
        var s := Step(cfg, libraryHandle, records[|records| - 1].name, env(records[|records| - 1].offset));
        BatchResult(s.aborted, prior.processed + 1, prior.calls + s.calls)
  }

  lemma StepAllSnoc(cfg: Config, libraryHandle: Option<Handle>, records: seq<Entry>, e: Entry, env: nat -> StepEnv)
    ensures StepAll(cfg, libraryHandle, records + [e], env) ==
      var prior := StepAll(cfg, libraryHandle, records, env);
      if prior.aborted then prior
      else
        var s := Step(cfg, libraryHandle, e.name, env(e.offset));
        BatchResult(s.aborted, prior.processed + 1, prior.calls + s.calls)
  {
    assert (records + [e])[..|records|] == records;
  }

  /** The steps for the first `i + 1` records are those for the first `i`
      followed by the step for record `i`. */
  lemma StepAllPrefix(cfg: Config, libraryHandle: Option<Handle>, rs: seq<Entry>, i: nat, env: nat -> StepEnv)
    requires i < |rs|
    ensures StepAll(cfg, libraryHandle, rs[..i + 1], env) ==
      var prior := StepAll(cfg, libraryHandle, rs[..i], env);
      if prior.aborted then prior
      else
        var s := Step(cfg, libraryHandle, rs[i].name, env(rs[i].offset));
        BatchResult(s.aborted, prior.processed + 1, prior.calls + s.calls)
  {
    assert rs[..i + 1][..i] == rs[..i];
  }

  /** Once a step aborts, no later record is processed. */
  lemma {:induction false} AbortIsFinal(cfg: Config, libraryHandle: Option<Handle>, records: seq<Entry>, more: seq<Entry>, env: nat -> StepEnv)
    requires StepAll(cfg, libraryHandle, records, env).aborted
    ensures StepAll(cfg, libraryHandle, records + more, env) == StepAll(cfg, libraryHandle, records, env)
    decreases |more|
  {
    if more != [] {
      var init := more[..|more| - 1];
      AbortIsFinal(cfg, libraryHandle, records, init, env);
      assert more == init + [more[|more| - 1]];
      assert records + more == (records + init) + [more[|more| - 1]];
      StepAllSnoc(cfg, libraryHandle, records + init, more[|more| - 1], env);
    } else {
      assert records + more == records;
    }
  }

  /** A batch whose first `n` steps end in an abort is those `n` steps. */
  lemma PrefixAborted(cfg: Config, libraryHandle: Option<Handle>, rs: seq<Entry>, n: nat, env: nat -> StepEnv)
    requires n <= |rs| && StepAll(cfg, libraryHandle, rs[..n], env).aborted
    ensures StepAll(cfg, libraryHandle, rs, env) == StepAll(cfg, libraryHandle, rs[..n], env)
  {
    AbortIsFinal(cfg, libraryHandle, rs[..n], rs[n..], env);
    assert rs[..n] + rs[n..] == rs;
  }

  /** The walk's bookkeeping for handling the `i`-th record: the batch so far
      grows by that step, and it is the whole batch once the step aborts or
      the record is the last. */
  lemma BatchAdvances(cfg: Config, libraryHandle: Option<Handle>, rs: seq<Entry>, i: nat, calls: seq<Call>,
                      s: StepResult, env: nat -> StepEnv)
    requires i < |rs| && StepAll(cfg, libraryHandle, rs[..i], env) == BatchResult(false, i, calls)
    requires s == Step(cfg, libraryHandle, rs[i].name, env(rs[i].offset))
    ensures StepAll(cfg, libraryHandle, rs[..i + 1], env) == BatchResult(s.aborted, i + 1, calls + s.calls)
    ensures s.aborted || i + 1 == |rs| ==>
      StepAll(cfg, libraryHandle, rs, env) == BatchResult(s.aborted, i + 1, calls + s.calls)
  {
    StepAllPrefix(cfg, libraryHandle, rs, i, env);
    if s.aborted {
      PrefixAborted(cfg, libraryHandle, rs, i + 1, env);
    } else if i + 1 == |rs| {
      assert rs[..i + 1] == rs;
    }
  }

  /** The offsets of `rs`, in order. */
  function Offsets(rs: seq<Entry>): (r: seq<nat>)
    ensures |r| == |rs|
  {
    if rs == [] then [] else Offsets(rs[..|rs| - 1]) + [rs[|rs| - 1].offset]
  }

  lemma OffsetsSnoc(rs: seq<Entry>, i: nat)
    requires i < |rs|
    ensures Offsets(rs[..i + 1]) == Offsets(rs[..i]) + [rs[i].offset]
  {
    assert rs[..i + 1][..i] == rs[..i];
  }

  /** Whether the step for a record named `name` ends Run: the record names
      the library, a handle is held and FreeLibrary fails. */
  predicate Aborts(cfg: Config, libraryHandle: Option<Handle>, name: WString, env: StepEnv)
  {
    name == cfg.libraryName && libraryHandle.Some? && !env.freeOk
  }

  lemma StepAborts(cfg: Config, libraryHandle: Option<Handle>, name: WString, env: StepEnv)
    ensures Step(cfg, libraryHandle, name, env).aborted == Aborts(cfg, libraryHandle, name, env)
  {
  }

  /** Where Run's walk of a batch stops early: at a record whose step ends
      Run. */
  function Halts(cfg: Config, libraryHandle: Option<Handle>, env: nat -> StepEnv): Entry -> bool
  {
    (e: Entry) => Aborts(cfg, libraryHandle, e.name, env(e.offset))
  }

  /** The steps Run takes on the batch the buffer holds. */
  function Batch(cfg: Config, libraryHandle: Option<Handle>, buf: seq<Byte>, env: nat -> StepEnv): BatchResult
    requires WalkFits(buf, 0, Halts(cfg, libraryHandle, env))
  {
    StepAll(cfg, libraryHandle, Walked(buf, 0, Halts(cfg, libraryHandle, env)), env)
  }

  /** A record that fits, names the library and whose free fails is the
      whole walk, whatever its NextEntryOffset and whatever follows it. */
  lemma FailedFreeEndsWalk(cfg: Config, libraryHandle: Option<Handle>, buf: seq<Byte>, env: nat -> StepEnv)
    requires RecordFits(buf, 0) && Aborts(cfg, libraryHandle, EntryAt(buf, 0).name, env(0))
    ensures WalkFits(buf, 0, Halts(cfg, libraryHandle, env))
    ensures Walked(buf, 0, Halts(cfg, libraryHandle, env)) == [EntryAt(buf, 0)]
    ensures Batch(cfg, libraryHandle, buf, env) == BatchResult(true, 1, [FreeLibrary(libraryHandle.value)])
  {
    var e := EntryAt(buf, 0);
    assert e.offset == 0 && Stops(e, Halts(cfg, libraryHandle, env));
    WalkUnfold(buf, 0, Halts(cfg, libraryHandle, env));
    assert [e][..0] == [];
    StepFreesBeforeWaiting(cfg, libraryHandle, e.name, env(0));
    var s := Step(cfg, libraryHandle, e.name, env(0));
    assert s == StepResult(true, [FreeLibrary(libraryHandle.value)]);
    assert StepAll(cfg, libraryHandle, [e], env) == BatchResult(s.aborted, 1, [] + s.calls);
  }

  /** A batch in which none of the first `m` steps ends Run has not ended
      Run after them. */
  lemma {:induction false} NoAbortBefore(cfg: Config, libraryHandle: Option<Handle>, rs: seq<Entry>, env: nat -> StepEnv, m: nat)
    requires m <= |rs| && forall k :: 0 <= k < m ==> !Aborts(cfg, libraryHandle, rs[k].name, env(rs[k].offset))
    ensures !StepAll(cfg, libraryHandle, rs[..m], env).aborted
  {
    if m > 0 {
      NoAbortBefore(cfg, libraryHandle, rs, env, m - 1);
      StepAllPrefix(cfg, libraryHandle, rs, m - 1, env);
      StepAborts(cfg, libraryHandle, rs[m - 1].name, env(rs[m - 1].offset));
    }
  }

  /** On a well-formed chain, the steps over the records the walk reads are
      the steps over all the decoded records: the records it does not read
      all come after a failed free. */
  lemma WalkMatchesRecords(cfg: Config, libraryHandle: Option<Handle>, buf: seq<Byte>, env: nat -> StepEnv)
    requires WellFormedFrom(buf, 0)
    ensures WalkFits(buf, 0, Halts(cfg, libraryHandle, env))
    ensures Batch(cfg, libraryHandle, buf, env) == StepAll(cfg, libraryHandle, Records(buf, 0), env)
  {
    WellFormedWalks(buf, 0, Halts(cfg, libraryHandle, env));
    var ws, rs := Walked(buf, 0, Halts(cfg, libraryHandle, env)), Records(buf, 0);
    var n := |ws|;
    if n == |rs| {
      assert rs[..n] == rs;
    } else {
      forall k | 0 <= k < n - 1
        ensures !Aborts(cfg, libraryHandle, ws[k].name, env(ws[k].offset))
      {
        WalkedLink(buf, 0, Halts(cfg, libraryHandle, env), k);
      }
      NoAbortBefore(cfg, libraryHandle, ws, env, n - 1);
      StepAllPrefix(cfg, libraryHandle, ws, n - 1, env);
      StepAborts(cfg, libraryHandle, ws[n - 1].name, env(ws[n - 1].offset));
      assert ws[..n] == ws;
      PrefixAborted(cfg, libraryHandle, rs, n, env);
    }
  }

  /** main.cpp Run, the walk over one batch: decode the record at `p`, handle
      it, and advance by its NextEntryOffset until that is 0 or a free fails.
      Returns the offsets of the records it read. */
  method RunBatch(buffer: array<Byte>, cfg: Config, libraryHandle: Option<Handle>, env: nat -> StepEnv)
    returns (aborted: bool, visited: seq<nat>, calls: seq<Call>)
    requires WalkFits(buffer[..], 0, Halts(cfg, libraryHandle, env))
    ensures BatchResult(aborted, |visited|, calls) == Batch(cfg, libraryHandle, buffer[..], env)
    ensures visited == Offsets(Walked(buffer[..], 0, Halts(cfg, libraryHandle, env)))
  {
    ghost var buf := buffer[..];
    ghost var ws := Walked(buf, 0, Halts(cfg, libraryHandle, env));
    var p: nat := 0;
    aborted, visited, calls := false, [], [];
    WalkedEnds(buf, 0, Halts(cfg, libraryHandle, env));
    while true
      invariant |visited| < |ws| && p == ws[|visited|].offset
      invariant visited == Offsets(ws[..|visited|])
      invariant StepAll(cfg, libraryHandle, ws[..|visited|], env) == BatchResult(false, |visited|, calls)
      decreases |ws| - |visited|
    {
      ghost var i := |visited|;
      WalkedAt(buf, 0, Halts(cfg, libraryHandle, env), i);
      var e := ReadEntry(buffer, p);
      var stepAborted, stepCalls := ReloadStep(cfg, libraryHandle, e.name, env(p));
      StepAborts(cfg, libraryHandle, e.name, env(p));
      BatchAdvances(cfg, libraryHandle, ws, i, calls, StepResult(stepAborted, stepCalls), env);
      OffsetsSnoc(ws, i);
      visited := visited + [p];
      calls := calls + stepCalls;
      if stepAborted {
        assert ws[..i + 1] == ws;
        return true, visited, calls;
      }
      if e.next == 0 {
        assert ws[..i + 1] == ws;
        return false, visited, calls;
      }
      p := p + e.next;
    }
  }

  // ---- The watch loop over a finite sequence of replies ----

  /** One ReadDirectoryChangesW: it fails, or it writes `bytes` at the start
      of the buffer; `env(q)` answers the reload step of the record at byte
      offset `q` of that batch. */
  datatype Read = ReadFailed | Delivered(bytes: seq<Byte>, env: nat -> StepEnv)

  /** The OS's answers at start-up: the first copy and load, and whether the
      directory handle could be opened. */
  datatype Startup = Startup(copyOk: bool, loaded: Option<Handle>, watchOk: bool)

  /** How Run ends: it returns on a failed directory open, a failed read or a
      failed FreeLibrary; Watching means it is still waiting for the next
      batch when the supplied replies run out. */
  datatype Outcome = WatchSetupFailed | WatchReadFailed | FreeFailed | Watching

  datatype RunResult = RunResult(outcome: Outcome, calls: seq<Call>)

  /** The handle Run holds for its whole lifetime. */
  function StartupHandle(start: Startup): Option<Handle>
  {
    if start.copyOk then start.loaded else None
  }

  /** Every record the loop reads lies inside the buffer: each read that
      happens fits in the buffer, and the walk of the batch it leaves there
      stays inside the buffer up to its last record or its failed free.
      Records after a failed free, and reads after a read that fails or
      after a batch whose FreeLibrary fails, never happen and are
      unconstrained. */
  predicate ReadsFit(cfg: Config, libraryHandle: Option<Handle>, buf: seq<Byte>, replies: seq<Read>)
    decreases |replies|
  {
    replies == [] || replies[0].ReadFailed? ||
    (|replies[0].bytes| <= |buf| &&
     var next := Overlay(buf, replies[0].bytes);
     WalkFits(next, 0, Halts(cfg, libraryHandle, replies[0].env)) &&
     (Batch(cfg, libraryHandle, next, replies[0].env).aborted ||
      ReadsFit(cfg, libraryHandle, next, replies[1..])))
  }

  /** The watch loop from buffer contents `buf` on. */
  function Watch(cfg: Config, libraryHandle: Option<Handle>, buf: seq<Byte>, replies: seq<Read>): RunResult
    requires ReadsFit(cfg, libraryHandle, buf, replies)
    decreases |replies|
  {
    if replies == [] then RunResult(Watching, [])
    else if replies[0].ReadFailed? then RunResult(WatchReadFailed, [])
    else
      var next := Overlay(buf, replies[0].bytes);
      var b := Batch(cfg, libraryHandle, next, replies[0].env);
      if b.aborted then RunResult(FreeFailed, b.calls)
      else
        var rest := Watch(cfg, libraryHandle, next, replies[1..]);
        RunResult(rest.outcome, b.calls + rest.calls)
  }

  /** All of Run, from the initial buffer contents `buf`. */
  function RunSpec(cfg: Config, start: Startup, buf: seq<Byte>, replies: seq<Read>): RunResult
    requires ReadsFit(cfg, StartupHandle(start), buf, replies)
  {
    var staged := StageTrace(cfg.libraryPath, cfg.destinationPath, start.copyOk);
    if !start.watchOk then RunResult(WatchSetupFailed, staged)
    else
      var w := Watch(cfg, StartupHandle(start), buf, replies);
      RunResult(w.outcome, staged + w.calls)
  }

  /** One turn of the watch loop on a read that delivers a batch. */
  lemma WatchDelivered(cfg: Config, libraryHandle: Option<Handle>, buf: seq<Byte>, replies: seq<Read>)
    requires ReadsFit(cfg, libraryHandle, buf, replies) && replies != [] && replies[0].Delivered?
    ensures |replies[0].bytes| <= |buf|
    ensures WalkFits(Overlay(buf, replies[0].bytes), 0, Halts(cfg, libraryHandle, replies[0].env))
    ensures var next := Overlay(buf, replies[0].bytes);
      var b := Batch(cfg, libraryHandle, next, replies[0].env);
      b.aborted ==> Watch(cfg, libraryHandle, buf, replies) == RunResult(FreeFailed, b.calls)
    ensures var next := Overlay(buf, replies[0].bytes);
      var b := Batch(cfg, libraryHandle, next, replies[0].env);
      !b.aborted ==> ReadsFit(cfg, libraryHandle, next, replies[1..])
    ensures var next := Overlay(buf, replies[0].bytes);
      var b := Batch(cfg, libraryHandle, next, replies[0].env);
      !b.aborted ==> (ReadsFit(cfg, libraryHandle, next, replies[1..]) &&
                      Watch(cfg, libraryHandle, buf, replies) ==
                      RunResult(Watch(cfg, libraryHandle, next, replies[1..]).outcome,
                                b.calls + Watch(cfg, libraryHandle, next, replies[1..]).calls))
  {
  }

  /** One turn of the watch loop, as WatchChanges takes it: a delivered
      batch whose walk ends Run ends the loop with the calls so far and the
      batch's; any other batch leaves the loop at the next reply. */
  lemma WatchTurn(cfg: Config, libraryHandle: Option<Handle>, initial: seq<Byte>, prev: seq<Byte>, replies: seq<Read>,
                  k: nat, calls: seq<Call>, aborted: bool, processed: nat, batchCalls: seq<Call>)
    requires k < |replies| && replies[k].Delivered? && |replies[k].bytes| <= |prev|
    requires ReadsFit(cfg, libraryHandle, initial, replies) && ReadsFit(cfg, libraryHandle, prev, replies[k..])
    requires Watch(cfg, libraryHandle, initial, replies) ==
      RunResult(Watch(cfg, libraryHandle, prev, replies[k..]).outcome, calls + Watch(cfg, libraryHandle, prev, replies[k..]).calls)
    requires WalkFits(Overlay(prev, replies[k].bytes), 0, Halts(cfg, libraryHandle, replies[k].env))
    requires BatchResult(aborted, processed, batchCalls) == Batch(cfg, libraryHandle, Overlay(prev, replies[k].bytes), replies[k].env)
    ensures aborted ==> Watch(cfg, libraryHandle, initial, replies) == RunResult(FreeFailed, calls + batchCalls)
    ensures var next := Overlay(prev, replies[k].bytes);
      !aborted ==>
        (ReadsFit(cfg, libraryHandle, next, replies[k + 1..]) &&
         Watch(cfg, libraryHandle, initial, replies) ==
         RunResult(Watch(cfg, libraryHandle, next, replies[k + 1..]).outcome,
                   (calls + batchCalls) + Watch(cfg, libraryHandle, next, replies[k + 1..]).calls))
  {
    var rs := replies[k..];
    assert rs[0] == replies[k] && rs[1..] == replies[k + 1..];
    WatchDelivered(cfg, libraryHandle, prev, rs);
    if !aborted {
      var rest := Watch(cfg, libraryHandle, Overlay(prev, replies[k].bytes), replies[k + 1..]).calls;
      assert (calls + batchCalls) + rest == calls + (batchCalls + rest);
    }
  }

  /** ReadDirectoryChangesW's write into the buffer. */
  method Deliver(buffer: array<Byte>, bytes: seq<Byte>)
    requires |bytes| <= buffer.Length
    modifies buffer
    ensures buffer[..] == Overlay(old(buffer[..]), bytes)
  {
    forall i | 0 <= i < |bytes| {
      buffer[i] := bytes[i];
    }
  }

  /** main.cpp Run, the loop: read a batch of changes into the buffer, walk
      it, and wait for the next, until a read or a FreeLibrary fails.
      `replies` answers the successive ReadDirectoryChangesW calls. `buffer`
      is Run's local buffer: its final contents are the last batch read
      over the earlier ones, and nothing reads them once Run returns. */
  method WatchChanges(buffer: array<Byte>, cfg: Config, libraryHandle: Option<Handle>, replies: seq<Read>)
    returns (outcome: Outcome, calls: seq<Call>)
    requires ReadsFit(cfg, libraryHandle, buffer[..], replies)
    modifies buffer
    ensures RunResult(outcome, calls) == Watch(cfg, libraryHandle, old(buffer[..]), replies)
  {
    ghost var initial := buffer[..];
    ghost var cur := initial;
    calls := [];
    var k := 0;
    assert replies[k..] == replies;
    assert calls + Watch(cfg, libraryHandle, cur, replies[k..]).calls == Watch(cfg, libraryHandle, cur, replies[k..]).calls;
    while k < |replies|
      invariant k <= |replies|
      invariant buffer[..] == cur
      invariant ReadsFit(cfg, libraryHandle, cur, replies[k..])
      invariant Watch(cfg, libraryHandle, initial, replies) ==
        RunResult(Watch(cfg, libraryHandle, cur, replies[k..]).outcome,
                  calls + Watch(cfg, libraryHandle, cur, replies[k..]).calls)
      decreases |replies| - k
    {
      var read := replies[k];
      assert replies[k..][0] == read;
      if read.ReadFailed? {
        return WatchReadFailed, calls;
      }
      ghost var prev := cur;
      WatchDelivered(cfg, libraryHandle, prev, replies[k..]);
      Deliver(buffer, read.bytes);
      cur := buffer[..];
      var aborted, visited, batchCalls := RunBatch(buffer, cfg, libraryHandle, read.env);
      WatchTurn(cfg, libraryHandle, initial, prev, replies, k, calls, aborted, |visited|, batchCalls);
      if aborted {
        return FreeFailed, calls + batchCalls;
      }
      calls := calls + batchCalls;
      k := k + 1;
    }
    assert replies[k..] == [];
    assert calls + [] == calls;
    return Watching, calls;
  }

  /** main.cpp Run: stage and load the library, open the directory, and
      watch it. `buffer` is the stack buffer, whose initial contents are
      whatever was there; it is local to Run, so what the loop leaves in it
      is never read afterwards. */
  method Run(cfg: Config, start: Startup, buffer: array<Byte>, replies: seq<Read>)
    returns (outcome: Outcome, calls: seq<Call>)
    requires buffer.Length == BufferSize
    requires ReadsFit(cfg, StartupHandle(start), buffer[..], replies)
    modifies buffer
    ensures RunResult(outcome, calls) == RunSpec(cfg, start, old(buffer[..]), replies)
  {
    var libraryHandle, stageCalls := CopyAndLoadLibrary(cfg.libraryPath, cfg.destinationPath, start.copyOk, start.loaded);
    assert libraryHandle == StartupHandle(start);
    if !start.watchOk {
      return WatchSetupFailed, stageCalls;
    }
    var watchCalls;
    outcome, watchCalls := WatchChanges(buffer, cfg, libraryHandle, replies);
    calls := stageCalls + watchCalls;
  }

  // ---- What the calls touch ----

  /** A call that names only the library, its staged copy or the handle
      `held`: opens and closes probe the library, copies go from the library
      to the staging path, loads load the staged copy and frees free `held`. */
  predicate Allowed(cfg: Config, held: Option<Handle>, c: Call)
  {
    match c
    case CreateFile(p) => p == cfg.libraryPath
    case CloseHandle(p) => p == cfg.libraryPath
    case Sleep(_) => true
    case CopyFile(source, target) => source == cfg.libraryPath && target == cfg.destinationPath
    case LoadLibrary(p) => p == cfg.destinationPath
    case FreeLibrary(lib) => held == Some(lib)
  }

  predicate Confined(cfg: Config, held: Option<Handle>, calls: seq<Call>)
  {
    forall c :: c in calls ==> Allowed(cfg, held, c)
  }

  lemma ConfinedAppend(cfg: Config, held: Option<Handle>, a: seq<Call>, b: seq<Call>)
    requires Confined(cfg, held, a) && Confined(cfg, held, b)
    ensures Confined(cfg, held, a + b)
  {
  }

  /** A reload step never writes the library, loads nothing but the staged
      copy and frees nothing but the handle Run holds. */
  lemma StepConfined(cfg: Config, libraryHandle: Option<Handle>, name: WString, env: StepEnv)
    ensures Confined(cfg, libraryHandle, Step(cfg, libraryHandle, name, env).calls)
  {
    WaitTraceMembers(cfg.libraryPath, env.probe);
    StageTraceLoadsStagedCopy(cfg.libraryPath, cfg.destinationPath, env.copyOk);
  }

  /** A record that does not name the library makes no call and never ends Run. */
  lemma StepIgnoresOtherNames(cfg: Config, libraryHandle: Option<Handle>, name: WString, env: StepEnv)
    requires name != cfg.libraryName
    ensures Step(cfg, libraryHandle, name, env) == StepResult(false, [])
  {
  }

  /** On a record naming the library while a handle is held, the first call
      frees that handle; the step ends Run exactly when the free fails, and
      then makes no other call; otherwise the wait's first open follows the
      free at once. */
  lemma StepFreesBeforeWaiting(cfg: Config, libraryHandle: Option<Handle>, name: WString, env: StepEnv)
    requires name == cfg.libraryName && libraryHandle.Some?
    ensures var s := Step(cfg, libraryHandle, name, env);
      && |s.calls| >= 1 && s.calls[0] == FreeLibrary(libraryHandle.value)
      && (s.aborted <==> !env.freeOk)
      && (!env.freeOk ==> s.calls == [FreeLibrary(libraryHandle.value)])
      && (env.freeOk ==> |s.calls| >= 2 && s.calls[1] == CreateFile(cfg.libraryPath))
  {
    WaitTraceMembers(cfg.libraryPath, env.probe);
  }

  /** With no handle held (the first load failed), a matching record frees
      nothing and never ends Run; it goes straight to the wait. */
  lemma StepWithoutHandleWaits(cfg: Config, name: WString, env: StepEnv)
    requires name == cfg.libraryName
    ensures var s := Step(cfg, None, name, env);
      && !s.aborted
      && |s.calls| >= 1 && s.calls[0] == CreateFile(cfg.libraryPath)
      && forall c :: c in s.calls ==> !c.FreeLibrary?
  {
    WaitTraceMembers(cfg.libraryPath, env.probe);
    StageTraceLoadsStagedCopy(cfg.libraryPath, cfg.destinationPath, env.copyOk);
  }

  /** A step copies the library exactly when the record names it, the free
      (if any) succeeded and the wait succeeded, and it loads the staged copy
      exactly when that copy succeeded too. The copy comes right after the
      close of the probe handle that ended the wait. */
  lemma StepStagesOnlyAfterWait(cfg: Config, libraryHandle: Option<Handle>, name: WString, env: StepEnv)
    ensures var s := Step(cfg, libraryHandle, name, env);
      var proceeds := name == cfg.libraryName && !(libraryHandle.Some? && !env.freeOk);
      && (CopyFile(cfg.libraryPath, cfg.destinationPath) in s.calls <==> proceeds && WaitOutcome(env.probe))
      && (LoadLibrary(cfg.destinationPath) in s.calls <==> proceeds && WaitOutcome(env.probe) && env.copyOk)
      && (forall j :: 0 <= j < |s.calls| && s.calls[j].CopyFile? ==> j > 0 && s.calls[j - 1] == CloseHandle(cfg.libraryPath))
  {
    var s := Step(cfg, libraryHandle, name, env);
    var copy := CopyFile(cfg.libraryPath, cfg.destinationPath);
    var wait := WaitTrace(cfg.libraryPath, env.probe);
    WaitTraceMembers(cfg.libraryPath, env.probe);
    WaitClosesOnSuccess(cfg.libraryPath, env.probe);
    StageTraceLoadsStagedCopy(cfg.libraryPath, cfg.destinationPath, env.copyOk);
    if name == cfg.libraryName && !(libraryHandle.Some? && !env.freeOk) {
      var freed := if libraryHandle.Some? then [FreeLibrary(libraryHandle.value)] else [];
      var pre := freed + wait;
      if WaitOutcome(env.probe) {
        var staged := StageTrace(cfg.libraryPath, cfg.destinationPath, env.copyOk);
        assert s.calls == pre + staged;
        forall k | 0 <= k < |pre|
          ensures !s.calls[k].CopyFile?
        {
          assert s.calls[k] == pre[k] && pre[k] in pre;
        }
        forall k | |pre| < k < |s.calls|
          ensures !s.calls[k].CopyFile?
        {
          assert s.calls[k] == staged[k - |pre|];
        }
        forall j | 0 <= j < |s.calls| && s.calls[j].CopyFile?
          ensures j > 0 && s.calls[j - 1] == CloseHandle(cfg.libraryPath)
        {
          assert j == |pre|;
          assert s.calls[j - 1] == wait[|wait| - 1];
        }
      } else {
        assert s.calls == pre;
        forall j | 0 <= j < |s.calls|
          ensures !s.calls[j].CopyFile?
        {
          assert s.calls[j] in pre;
        }
      }
    }
  }

  /** How often a step frees `x`: once when it is the held handle and the
      record names the library, never otherwise. */
  lemma StepFreeCount(cfg: Config, libraryHandle: Option<Handle>, name: WString, env: StepEnv, x: Handle)
    ensures Occurrences(Step(cfg, libraryHandle, name, env).calls, FreeLibrary(x)) ==
      if libraryHandle == Some(x) && name == cfg.libraryName then 1 else 0
  {
    var calls := Step(cfg, libraryHandle, name, env).calls;
    StepConfined(cfg, libraryHandle, name, env);
    if libraryHandle == Some(x) && name == cfg.libraryName {
      var f := FreeLibrary(x);
      var rest: seq<Call>;
      if !env.freeOk {
        rest := [];
      } else {
        var wait := WaitTrace(cfg.libraryPath, env.probe);
        var staged := if WaitOutcome(env.probe) then StageTrace(cfg.libraryPath, cfg.destinationPath, env.copyOk) else [];
        WaitTraceMembers(cfg.libraryPath, env.probe);
        StageTraceLoadsStagedCopy(cfg.libraryPath, cfg.destinationPath, env.copyOk);
        assert f !in wait && f !in staged;
        rest := wait + staged;
      }
      assert calls == [f] + rest;
      assert f !in rest;
      OccurrencesAppend([f], rest, f);
      assert [f][1..] == [];
    } else {
      assert FreeLibrary(x) !in calls;
    }
  }

  // ---- Over a batch ----

  /** The number of records in `rs` named `name`. */
  function Matches(rs: seq<Entry>, name: WString): (n: nat)
    ensures n <= |rs|
  {
    if rs == [] then 0
    else Matches(rs[..|rs| - 1], name) + (if rs[|rs| - 1].name == name then 1 else 0)
  }

  /** A batch naming only other files makes no call and is walked to its end. */
  lemma {:induction false} BatchIgnoresOtherNames(cfg: Config, libraryHandle: Option<Handle>, rs: seq<Entry>, env: nat -> StepEnv)
    requires Matches(rs, cfg.libraryName) == 0
    ensures StepAll(cfg, libraryHandle, rs, env) == BatchResult(false, |rs|, [])
  {
    if rs != [] {
      BatchIgnoresOtherNames(cfg, libraryHandle, rs[..|rs| - 1], env);
    }
  }

  /** A batch touches nothing but the library, its staged copy and the held
      handle. */
  lemma {:induction false} BatchConfined(cfg: Config, libraryHandle: Option<Handle>, rs: seq<Entry>, env: nat -> StepEnv)
    ensures Confined(cfg, libraryHandle, StepAll(cfg, libraryHandle, rs, env).calls)
  {
    if rs != [] {
      var init := rs[..|rs| - 1];
      BatchConfined(cfg, libraryHandle, init, env);
      var prior := StepAll(cfg, libraryHandle, init, env);
      if !prior.aborted {
        StepConfined(cfg, libraryHandle, rs[|rs| - 1].name, env(rs[|rs| - 1].offset));
        ConfinedAppend(cfg, libraryHandle, prior.calls, Step(cfg, libraryHandle, rs[|rs| - 1].name, env(rs[|rs| - 1].offset)).calls);
      }
    }
  }

  /** The held handle is freed once for every processed record that names the
      library: the same handle each time, although the first free already
      released it. No handle of any other value is ever freed, so a handle a
      reload loaded is freed only when it equals the held one (a reload at
      the same base address), and then only by these stale frees. */
  lemma {:induction false} BatchFreesStaleHandle(cfg: Config, libraryHandle: Option<Handle>, rs: seq<Entry>, env: nat -> StepEnv, x: Handle)
    ensures var b := StepAll(cfg, libraryHandle, rs, env);
      Occurrences(b.calls, FreeLibrary(x)) ==
        if libraryHandle == Some(x) then Matches(rs[..b.processed], cfg.libraryName) else 0
  {
    if rs == [] {
      assert rs[..0] == [];
    } else {
      var init := rs[..|rs| - 1];
      BatchFreesStaleHandle(cfg, libraryHandle, init, env, x);
      var prior := StepAll(cfg, libraryHandle, init, env);
      if prior.aborted {
        assert StepAll(cfg, libraryHandle, rs, env) == prior;
        assert rs[..prior.processed] == init[..prior.processed];
      } else {
        FreesOneMoreStep(cfg, libraryHandle, rs, env, x);
      }
    }
  }

  /** The inductive step of BatchFreesStaleHandle when the earlier records
      did not end the batch. */
  lemma FreesOneMoreStep(cfg: Config, libraryHandle: Option<Handle>, rs: seq<Entry>, env: nat -> StepEnv, x: Handle)
    requires rs != []
    requires var init := rs[..|rs| - 1];
      var prior := StepAll(cfg, libraryHandle, init, env);
      !prior.aborted &&
      Occurrences(prior.calls, FreeLibrary(x)) ==
        if libraryHandle == Some(x) then Matches(init[..prior.processed], cfg.libraryName) else 0
    ensures var b := StepAll(cfg, libraryHandle, rs, env);
      Occurrences(b.calls, FreeLibrary(x)) ==
        if libraryHandle == Some(x) then Matches(rs[..b.processed], cfg.libraryName) else 0
  {
    var init, last := rs[..|rs| - 1], rs[|rs| - 1];
    var prior := StepAll(cfg, libraryHandle, init, env);
    var s := Step(cfg, libraryHandle, last.name, env(last.offset));
    var b := StepAll(cfg, libraryHandle, rs, env);
    assert b.calls == prior.calls + s.calls && b.processed == |rs|;
    StepFreeCount(cfg, libraryHandle, last.name, env(last.offset), x);
    OccurrencesAppend(prior.calls, s.calls, FreeLibrary(x));
    assert init[..prior.processed] == init;
    assert rs[..|rs|] == rs;
    assert Matches(rs, cfg.libraryName) == Matches(init, cfg.libraryName) + (if last.name == cfg.libraryName then 1 else 0);
  }

  // ---- Over the watch loop and the whole run ----

  /** Every batch of the watch loop stays confined to the library, its staged
      copy and the held handle. */
  lemma {:induction false} WatchConfined(cfg: Config, libraryHandle: Option<Handle>, buf: seq<Byte>, replies: seq<Read>)
    requires ReadsFit(cfg, libraryHandle, buf, replies)
    ensures Confined(cfg, libraryHandle, Watch(cfg, libraryHandle, buf, replies).calls)
    decreases |replies|
  {
    if replies != [] && replies[0].Delivered? {
      var next := Overlay(buf, replies[0].bytes);
      WatchDelivered(cfg, libraryHandle, buf, replies);
      BatchConfined(cfg, libraryHandle, Walked(next, 0, Halts(cfg, libraryHandle, replies[0].env)), replies[0].env);
      var b := Batch(cfg, libraryHandle, next, replies[0].env);
      if !b.aborted {
        WatchConfined(cfg, libraryHandle, next, replies[1..]);
        ConfinedAppend(cfg, libraryHandle, b.calls, Watch(cfg, libraryHandle, next, replies[1..]).calls);
      }
    }
  }

  /** Over a whole run, the library itself is only ever read, only the staged
      copy is ever loaded, and the only handle value ever freed is the one
      loaded at start-up. */
  lemma RunConfined(cfg: Config, start: Startup, buf: seq<Byte>, replies: seq<Read>)
    requires ReadsFit(cfg, StartupHandle(start), buf, replies)
    ensures Confined(cfg, StartupHandle(start), RunSpec(cfg, start, buf, replies).calls)
  {
    StageTraceLoadsStagedCopy(cfg.libraryPath, cfg.destinationPath, start.copyOk);
    if start.watchOk {
      WatchConfined(cfg, StartupHandle(start), buf, replies);
      ConfinedAppend(cfg, StartupHandle(start),
        StageTrace(cfg.libraryPath, cfg.destinationPath, start.copyOk),
        Watch(cfg, StartupHandle(start), buf, replies).calls);
    }
  }

  // ---- Scenarios ----

  /** A read that delivers one encoded change leaves a single record carrying
      that change, whatever the rest of the buffer holds. */
  lemma OneChangeDelivered(buf: seq<Byte>, c: Change)
    requires Encodable(c) && |Encode([c])| <= |buf|
    ensures WellFormedFrom(Overlay(buf, Encode([c])), 0)
    ensures var rs := Records(Overlay(buf, Encode([c])), 0);
      |rs| == 1 && rs[0].action == c.action && rs[0].name == c.name
  {
    var bytes := Encode([c]);
    DecodeEncode([], [c], []);
    assert [] + bytes + [] == bytes;
    DeliveredChainDecodes(buf, bytes);
    var rs := Records(bytes, 0);
    assert Changes(rs) == [c];
    assert Changes(rs)[0] == Change(rs[0].action, rs[0].name);
  }

  /** The OS answers of a reload that goes through: the free succeeds, the
      first open succeeds, and the copy and load succeed with `loaded`. */
  function SmoothReload(loaded: Handle): nat -> StepEnv
  {
    (i: nat) => StepEnv(true, (k: nat) => Opened, true, Some(loaded))
  }

  /** The calls of a smooth reload while `held` is held: free it, probe the
      library once and close the probe, then copy and load. */
  function SmoothCalls(cfg: Config, held: Handle): seq<Call>
  {
    [FreeLibrary(held), CreateFile(cfg.libraryPath), CloseHandle(cfg.libraryPath),
     CopyFile(cfg.libraryPath, cfg.destinationPath), LoadLibrary(cfg.destinationPath)]
  }

  /** A reload of the library while `held` is held, on smooth answers, makes
      exactly the calls of a smooth reload and does not end Run. */
  lemma SmoothStep(cfg: Config, held: Handle, loaded: Handle, i: nat)
    ensures Step(cfg, Some(held), cfg.libraryName, SmoothReload(loaded)(i)) ==
      StepResult(false, SmoothCalls(cfg, held))
  {
    var env := SmoothReload(loaded)(i);
    WaitEndsOpened(cfg.libraryPath, env.probe, 0);
    assert WaitTrace(cfg.libraryPath, env.probe) == [CreateFile(cfg.libraryPath), CloseHandle(cfg.libraryPath)];
  }

  /** A batch of one smooth reload. */
  lemma SmoothBatch(cfg: Config, held: Handle, loaded: Handle, rs: seq<Entry>)
    requires |rs| == 1 && rs[0].name == cfg.libraryName
    ensures StepAll(cfg, Some(held), rs, SmoothReload(loaded)) == BatchResult(false, 1, SmoothCalls(cfg, held))
  {
    assert rs[..0] == [];
    SmoothStep(cfg, held, loaded, rs[0].offset);
  }

  /** A read that delivers a batch Run walks to its end, followed by further
      replies `more`. */
  lemma WatchReadThen(cfg: Config, libraryHandle: Option<Handle>, buf: seq<Byte>, read: Read, more: seq<Read>)
    requires read.Delivered? && |read.bytes| <= |buf| && WellFormedFrom(Overlay(buf, read.bytes), 0)
    requires var next := Overlay(buf, read.bytes);
      !StepAll(cfg, libraryHandle, Records(next, 0), read.env).aborted && ReadsFit(cfg, libraryHandle, next, more)
    ensures ReadsFit(cfg, libraryHandle, buf, [read] + more)
    ensures var next := Overlay(buf, read.bytes);
      var rest := Watch(cfg, libraryHandle, next, more);
      Watch(cfg, libraryHandle, buf, [read] + more) ==
        RunResult(rest.outcome, StepAll(cfg, libraryHandle, Records(next, 0), read.env).calls + rest.calls)
  {
    WalkMatchesRecords(cfg, libraryHandle, Overlay(buf, read.bytes), read.env);
    assert ([read] + more)[0] == read && ([read] + more)[1..] == more;
  }

  /** A read whose first record names the library, while a handle is held
      and its FreeLibrary fails, ends Run after that one free, whatever
      the rest of the buffer holds and whatever replies would follow. */
  lemma WatchReadAborts(cfg: Config, libraryHandle: Option<Handle>, buf: seq<Byte>, read: Read, more: seq<Read>)
    requires read.Delivered? && |read.bytes| <= |buf|
    requires var next := Overlay(buf, read.bytes);
      RecordFits(next, 0) && Aborts(cfg, libraryHandle, EntryAt(next, 0).name, read.env(0))
    ensures ReadsFit(cfg, libraryHandle, buf, [read] + more)
    ensures Watch(cfg, libraryHandle, buf, [read] + more) == RunResult(FreeFailed, [FreeLibrary(libraryHandle.value)])
  {
    FailedFreeEndsWalk(cfg, libraryHandle, Overlay(buf, read.bytes), read.env);
    assert ([read] + more)[0] == read && ([read] + more)[1..] == more;
  }

  /** One change to the library: Run stages and loads it, then on the change
      frees the handle, waits, copies and loads again, and goes on watching. */
  lemma OneReloadScenario(cfg: Config, buf: seq<Byte>, action: nat)
    requires |buf| == BufferSize && HeaderSize + 2 * |cfg.libraryName| <= BufferSize && action < DwordLimit
    ensures var start := Startup(true, Some(Handle(1)), true);
      var replies := [Delivered(Encode([Change(action, cfg.libraryName)]), SmoothReload(Handle(2)))];
      && ReadsFit(cfg, StartupHandle(start), buf, replies)
      && RunSpec(cfg, start, buf, replies) ==
         RunResult(Watching, [CopyFile(cfg.libraryPath, cfg.destinationPath), LoadLibrary(cfg.destinationPath),
                              FreeLibrary(Handle(1)), CreateFile(cfg.libraryPath), CloseHandle(cfg.libraryPath),
                              CopyFile(cfg.libraryPath, cfg.destinationPath), LoadLibrary(cfg.destinationPath)])
  {
    var h := Some(Handle(1));
    var c := Change(action, cfg.libraryName);
    var read := Delivered(Encode([c]), SmoothReload(Handle(2)));
    OneChangeDelivered(buf, c);
    var next := Overlay(buf, read.bytes);
    SmoothBatch(cfg, Handle(1), Handle(2), Records(next, 0));
    assert ReadsFit(cfg, h, next, []);
    WatchReadThen(cfg, h, buf, read, []);
    assert [read] + [] == [read];
    assert Watch(cfg, h, buf, [read]) == RunResult(Watching, SmoothCalls(cfg, Handle(1)) + []);
    assert StartupHandle(Startup(true, h, true)) == h;
  }

  /** A smooth reload frees `held` once and no other handle. */
  lemma SmoothCallsFree(cfg: Config, held: Handle, x: Handle)
    ensures Occurrences(SmoothCalls(cfg, held), FreeLibrary(x)) == if x == held then 1 else 0
  {
    var calls := SmoothCalls(cfg, held);
    var f := FreeLibrary(x);
    assert calls == [calls[0]] + calls[1..];
    OccurrencesAppend([calls[0]], calls[1..], f);
    assert [calls[0]][1..] == [];
    assert f !in calls[1..];
  }

  /** Two reads that each deliver one change to the library, with every
      FreeLibrary answered as successful: Run walks both batches and makes a
      smooth reload for each, both freeing `held`, whatever handle `loaded`
      the reloads load. */
  lemma TwoSmoothReads(cfg: Config, held: Handle, loaded: Handle, buf: seq<Byte>, action: nat)
    requires |buf| == BufferSize && HeaderSize + 2 * |cfg.libraryName| <= BufferSize && action < DwordLimit
    ensures var read := Delivered(Encode([Change(action, cfg.libraryName)]), SmoothReload(loaded));
      && ReadsFit(cfg, Some(held), buf, [read, read])
      && Watch(cfg, Some(held), buf, [read, read]) ==
         RunResult(Watching, SmoothCalls(cfg, held) + SmoothCalls(cfg, held))
  {
    var h := Some(held);
    var c := Change(action, cfg.libraryName);
    var read := Delivered(Encode([c]), SmoothReload(loaded));
    OneChangeDelivered(buf, c);
    var next := Overlay(buf, read.bytes);
    OneChangeDelivered(next, c);
    var next2 := Overlay(next, read.bytes);
    SmoothBatch(cfg, held, loaded, Records(next, 0));
    SmoothBatch(cfg, held, loaded, Records(next2, 0));
    var calls := SmoothCalls(cfg, held);
    assert ReadsFit(cfg, h, next2, []);
    WatchReadThen(cfg, h, next, read, []);
    assert [read] + [] == [read];
    assert Watch(cfg, h, next, [read]) == RunResult(Watching, calls + []);
    WatchReadThen(cfg, h, buf, read, [read]);
    assert [read] + [read] == [read, read];
  }

  /** Two changes to the library in two reads, with the OS reporting both
      frees as successful: each frees the handle loaded at start-up, so the
      second frees a handle already freed, and the handle the first reload
      loaded, which here differs from it, is never freed. */
  lemma SecondReloadFreesStaleHandle(cfg: Config, buf: seq<Byte>, action: nat)
    requires |buf| == BufferSize && HeaderSize + 2 * |cfg.libraryName| <= BufferSize && action < DwordLimit
    ensures var start := Startup(true, Some(Handle(1)), true);
      var read := Delivered(Encode([Change(action, cfg.libraryName)]), SmoothReload(Handle(2)));
      && ReadsFit(cfg, StartupHandle(start), buf, [read, read])
      && var calls := RunSpec(cfg, start, buf, [read, read]).calls;
         && Occurrences(calls, FreeLibrary(Handle(1))) == 2
         && FreeLibrary(Handle(2)) !in calls
  {
    var start := Startup(true, Some(Handle(1)), true);
    assert StartupHandle(start) == Some(Handle(1));
    TwoSmoothReads(cfg, Handle(1), Handle(2), buf, action);
    var staged := StageTrace(cfg.libraryPath, cfg.destinationPath, true);
    var once := SmoothCalls(cfg, Handle(1));
    StageTraceLoadsStagedCopy(cfg.libraryPath, cfg.destinationPath, true);
    forall x: Handle
      ensures Occurrences(staged + (once + once), FreeLibrary(x)) == if x == Handle(1) then 2 else 0
    {
      SmoothCallsFree(cfg, Handle(1), x);
      OccurrencesAppend(once, once, FreeLibrary(x));
      OccurrencesAppend(staged, once + once, FreeLibrary(x));
    }
    assert Occurrences(staged + (once + once), FreeLibrary(Handle(2))) == 0;
  }

  /** The answers of a reload whose FreeLibrary fails. */
  function FailedFree(): nat -> StepEnv
  {
    (i: nat) => StepEnv(false, (k: nat) => Opened, true, None)
  }

  /** Two changes to the library in two reads, where the second free of the
      start-up handle, which the first reload already freed, fails: Run
      stages and loads, reloads once, and returns after the failed free. The
      reads after that one never happen. */
  lemma SecondFreeFails(cfg: Config, buf: seq<Byte>, action: nat, later: seq<Read>)
    requires |buf| == BufferSize && HeaderSize + 2 * |cfg.libraryName| <= BufferSize && action < DwordLimit
    ensures var start := Startup(true, Some(Handle(1)), true);
      var bytes := Encode([Change(action, cfg.libraryName)]);
      var replies := [Delivered(bytes, SmoothReload(Handle(2))), Delivered(bytes, FailedFree())] + later;
      && ReadsFit(cfg, StartupHandle(start), buf, replies)
      && RunSpec(cfg, start, buf, replies) ==
         RunResult(FreeFailed, [CopyFile(cfg.libraryPath, cfg.destinationPath), LoadLibrary(cfg.destinationPath)] +
                               SmoothCalls(cfg, Handle(1)) + [FreeLibrary(Handle(1))])
  {
    var h := Some(Handle(1));
    var c := Change(action, cfg.libraryName);
    var bytes := Encode([c]);
    var first := Delivered(bytes, SmoothReload(Handle(2)));
    var second := Delivered(bytes, FailedFree());
    OneChangeDelivered(buf, c);
    var next := Overlay(buf, bytes);
    OneChangeDelivered(next, c);
    var next2 := Overlay(next, bytes);
    RecordsUnfold(next2, 0);
    WatchReadAborts(cfg, h, next, second, later);
    SmoothBatch(cfg, Handle(1), Handle(2), Records(next, 0));
    WatchReadThen(cfg, h, buf, first, [second] + later);
    assert [first] + ([second] + later) == [first, second] + later;
    assert StartupHandle(Startup(true, h, true)) == h;
  }
}
