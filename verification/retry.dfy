/** The two retry loops of a worker. The bus loop sends a job, reads the
    answer and validates it, and tries again on any failure until its
    counter exceeds ten; every failure also counts towards the miner-wide
    bus retry tally and checksum failures towards the bad-checksum tally.
    The pool loop reconnects until it succeeds and fetches a fresh pool
    endpoint once its counter exceeds three. */
module Retry {
  import opened Wrappers
  import opened PyText
  import opened PyInt
  import opened Framing
  import opened Demux
  import opened Validation

  /** The bus loop gives up once its counter exceeds this. */
  const MaxBusRetries: nat := 10
  /** The pool loop fetches a new endpoint once its counter exceeds this. */
  const MaxPoolRetries: nat := 3

  /** Why one bus attempt failed. */
  datatype Failure =
    | MalformedJob           // the job has fewer than three fields
    | Bus(error: BusError)   // the read loop ended without an answer
    | Invalid(reason: Rejection)

  datatype AttemptOutcome =
    | Valid(share: Share)
    | Failed(cause: Failure)
    | Waiting                // the poll stream ran out mid-read
    | Hung                   // the read loop blocked on the bus semaphore

  /** The effect of one attempt: its outcome, the buffers and the last
      split of a buffer (`result`) it leaves behind, whether it wrote a
      flush command, and whether a raising read left the bus semaphore
      taken. */
  datatype AttemptResult = AttemptResult(outcome: AttemptOutcome, buffers: Buffers, fields: seq<string>,
                                         flushed: bool, lockHeld: bool)

  /** A state whose completion, if any, names an existing buffer whose
      split is `result`. */
  predicate CompletionFits(r: ReadState)
  {
    r.status.Complete? ==> r.status.key in r.buffers && r.fields == Split(r.buffers[r.status.key], FieldSep)
  }

  /** The end of an attempt once its read loop has stopped: the buffer
      that completed the read is validated; `lockHeld` is passed on. */
  function Conclude(r: ReadState, crcFlag: string, lockHeld: bool): (a: AttemptResult)
    requires CompletionFits(r)
    ensures a.buffers == r.buffers && a.lockHeld == lockHeld
    ensures a.outcome.Valid? ==>
      exists key :: key in a.buffers && Validate(a.buffers[key], crcFlag) == Accepted(a.outcome.share)
                    && a.fields == Split(a.buffers[key], FieldSep)
    ensures a.flushed <==> a.outcome.Failed? && a.outcome.cause.Bus? && a.outcome.cause.error.Flushes()
    ensures a.outcome.Hung? <==> r.status.Blocked?
    ensures a.flushed <==> r.status.Aborted? && r.status.error.Flushes()
  {
    match r.status
    case Reading => AttemptResult(Waiting, r.buffers, r.fields, false, lockHeld)
    case Blocked => AttemptResult(Hung, r.buffers, r.fields, false, lockHeld)
    case Aborted(e) => AttemptResult(Failed(Bus(e)), r.buffers, r.fields, e.Flushes(), lockHeld)
    case Complete(key) =>
      match Validate(r.buffers[key], crcFlag)
      case Accepted(s) => AttemptResult(Valid(s), r.buffers, r.fields, false, lockHeld)
      case Rejected(why) => AttemptResult(Failed(Invalid(why)), r.buffers, r.fields, false, lockHeld)
  }

  /** One pass of the bus loop for worker `w`, with the corrected read
      loop: build the job line, clear the worker's own buffer and
      `result`, read until the loop ends, and validate the buffer of
      whichever address completed the read. It never blocks. */
  function RunAttempt(w: Worker, job: seq<string>, crcFlag: string, buffers: Buffers,
                      fields: seq<string>, polls: seq<Poll>): (a: AttemptResult)
    ensures |job| < 3 ==> a == AttemptResult(Failed(MalformedJob), buffers, fields, false, false)
    ensures |job| >= 3 ==> a.buffers.Keys == buffers.Keys + {BufferKey(w)}
    ensures a.outcome.Valid? ==>
      exists key :: key in a.buffers && Validate(a.buffers[key], crcFlag) == Accepted(a.outcome.share)
                    && a.fields == Split(a.buffers[key], FieldSep)
    ensures a.flushed <==> a.outcome.Failed? && a.outcome.cause.Bus? && a.outcome.cause.error.Flushes()
    ensures !a.outcome.Hung? && !a.lockHeld
  {
    match BuildJob(job, crcFlag)
    case None => AttemptResult(Failed(MalformedJob), buffers, fields, false, false)
    case Some(_) =>
      var start := ReadState(buffers[BufferKey(w) := ""], [], Reading);
      var r := ReadLoop(polls, start, crcFlag);
      assert CompletionFits(r) by { ReadLoopCompletes(polls, start, crcFlag); }
      Conclude(r, crcFlag, false)
  }

  /** One pass of the bus loop as the source writes it: the same, with the
      read loop as written. A raising read leaves the bus semaphore taken. */
  function RunAttemptAsWritten(w: Worker, job: seq<string>, crcFlag: string, buffers: Buffers,
                               fields: seq<string>, polls: seq<Poll>): (a: AttemptResult)
    ensures |job| < 3 ==> a == AttemptResult(Failed(MalformedJob), buffers, fields, false, false)
    ensures |job| >= 3 ==> a.buffers.Keys == buffers.Keys + {BufferKey(w)}
    ensures a.outcome.Valid? ==>
      exists key :: key in a.buffers && Validate(a.buffers[key], crcFlag) == Accepted(a.outcome.share)
                    && a.fields == Split(a.buffers[key], FieldSep)
    ensures a.outcome.Hung? ==> a.lockHeld
    ensures a.lockHeld ==> ReadRaised(polls) && !a.flushed
  {
    match BuildJob(job, crcFlag)
    case None => AttemptResult(Failed(MalformedJob), buffers, fields, false, false)
    case Some(_) =>
      var start := ReadState(buffers[BufferKey(w) := ""], [], Reading);
      var r := ReadLoopAsWritten(polls, start, [], crcFlag);
      assert CompletionFits(r.state) && r.state.buffers.Keys == start.buffers.Keys by {
        ReadLoopAsWrittenCompletes(polls, start, [], crcFlag);
      }
      assert r.lockHeld ==> ReadRaised(polls) && !NeedsBus(r.state.status);
      Conclude(r.state, crcFlag, r.lockHeld)
  }

  /** Without a raising read the attempt as written is the corrected
      one. */
  lemma AttemptsAgree(w: Worker, job: seq<string>, crcFlag: string, buffers: Buffers,
                      fields: seq<string>, polls: seq<Poll>)
    requires !ReadRaised(polls)
    ensures RunAttemptAsWritten(w, job, crcFlag, buffers, fields, polls) == RunAttempt(w, job, crcFlag, buffers, fields, polls)
  {
    if BuildJob(job, crcFlag).Some? {
      var start := ReadState(buffers[BufferKey(w) := ""], [], Reading);
      AsWrittenWithoutRaise(polls, start, [], crcFlag);
    }
  }

  /** A completed read names a buffer that exists, and `result` is its
      split; the buffer keys never change. */
  lemma {:induction false} ReadLoopCompletes(polls: seq<Poll>, st: ReadState, crcFlag: string)
    requires CompletionFits(st)
    ensures ReadLoop(polls, st, crcFlag).buffers.Keys == st.buffers.Keys
    ensures CompletionFits(ReadLoop(polls, st, crcFlag))
    decreases |polls|
  {
    if st.status.Reading? && |polls| > 0 {
      ReadLoopCompletes(polls[1..], PollStep(st, polls[0], crcFlag), crcFlag);
    }
  }

  /** The same for the loop as written, whose extra pass over a stale
      reply is an ordinary pass. */
  lemma {:induction false} ReadLoopAsWrittenCompletes(polls: seq<Poll>, st: ReadState, last: seq<string>, crcFlag: string)
    requires CompletionFits(st)
    ensures ReadLoopAsWritten(polls, st, last, crcFlag).state.buffers.Keys == st.buffers.Keys
    ensures CompletionFits(ReadLoopAsWritten(polls, st, last, crcFlag).state)
    decreases |polls|
  {
    if st.status.Reading? && |polls| > 0 {
      match polls[0].reply
      case Some(reply) =>
        ReadLoopAsWrittenCompletes(polls[1..], Process(st.buffers, st.fields, reply, polls[0].expired, crcFlag), reply, crcFlag);
      case None =>
        AbsorbOneEffect(st.buffers, last);
    }
  }

  /** The miner-wide tallies the bus loop updates. */
  datatype Counters = Counters(badCrc: nat, busRetries: nat)

  /** `Deadlocked`: the worker blocked on the bus semaphore, inside an
      attempt or, after a failed attempt whose read left the semaphore
      taken, at its next bus command (the next job write or the give-up
      flush). */
  datatype BusOutcome = Delivered(share: Share) | GaveUp | Stalled | Deadlocked

  /** Where the bus loop stands: its counter, the tallies, the buffers and
      `result`. */
  datatype BusState = BusState(retry: nat, counters: Counters, buffers: Buffers, fields: seq<string>)

  /** How the bus loop ended, the state it left, the outcome of every
      attempt it made, and whether it flushed on giving up. */
  datatype BusResult = BusResult(outcome: BusOutcome, state: BusState, log: seq<AttemptOutcome>, flushed: bool)

  predicate IsCrcFailure(o: AttemptOutcome)
  {
    o.Failed? && o.cause.Invalid? && o.cause.reason.CrcMismatch?
  }

  /** How one attempt is run from the buffers and `result` left by the
      previous one. */
  type Runner = (Buffers, seq<string>, seq<Poll>) -> AttemptResult

  /** The bus loop over the poll streams of successive attempts, with the
      attempt itself as a parameter. */
  function BusLoopWith(run: Runner, attempts: seq<seq<Poll>>, st: BusState): (r: BusResult)
    ensures r.state.retry >= st.retry
    ensures r.state.counters.busRetries == st.counters.busRetries + (r.state.retry - st.retry)
    ensures r.outcome.GaveUp? <==> r.flushed
    ensures r.outcome.GaveUp? ==> r.state.retry == MaxBusRetries + 1 || (st.retry > MaxBusRetries && r.state == st)
    ensures st.retry <= MaxBusRetries + 1 ==> |r.log| <= MaxBusRetries + 1 - st.retry
    decreases |attempts|
  {
    if st.retry > MaxBusRetries then BusResult(GaveUp, st, [], true)
    else if |attempts| == 0 then BusResult(Stalled, st, [], false)
    else
      var a := run(st.buffers, st.fields, attempts[0]);
      match a.outcome
      case Valid(s) => BusResult(Delivered(s), st.(buffers := a.buffers, fields := a.fields), [a.outcome], false)
      case Waiting => BusResult(Stalled, st.(buffers := a.buffers, fields := a.fields), [a.outcome], false)
      case Hung => BusResult(Deadlocked, st.(buffers := a.buffers, fields := a.fields), [a.outcome], false)
      case Failed(_) =>
        if a.lockHeld then BusResult(Deadlocked, AfterFailure(st, a), [a.outcome], false)
        else
          var rest := BusLoopWith(run, attempts[1..], AfterFailure(st, a));
          rest.(log := [a.outcome] + rest.log)
  }

  /** The state after a failed attempt: both counters bumped, a checksum
      failure also counted as such. */
  function AfterFailure(st: BusState, a: AttemptResult): BusState
  {
    BusState(st.retry + 1,
             Counters(st.counters.badCrc + (if IsCrcFailure(a.outcome) then 1 else 0), st.counters.busRetries + 1),
             a.buffers, a.fields)
  }

  /** The attempts of worker `w` on `job`. */
  function AttemptsOf(w: Worker, job: seq<string>, crcFlag: string): Runner
  {
    (b, f, p) => RunAttempt(w, job, crcFlag, b, f, p)
  }

  /** The bus loop of worker `w` on `job`, with the corrected read loop. */
  function BusLoop(w: Worker, job: seq<string>, crcFlag: string, attempts: seq<seq<Poll>>, st: BusState): BusResult
  {
    BusLoopWith(AttemptsOf(w, job, crcFlag), attempts, st)
  }

  /** The attempts of worker `w` on `job` as the source writes them. */
  function AttemptsAsWrittenOf(w: Worker, job: seq<string>, crcFlag: string): Runner
  {
    (b, f, p) => RunAttemptAsWritten(w, job, crcFlag, b, f, p)
  }

  /** The bus loop of worker `w` on `job` as the source writes it. */
  function BusLoopAsWritten(w: Worker, job: seq<string>, crcFlag: string, attempts: seq<seq<Poll>>, st: BusState): BusResult
  {
    BusLoopWith(AttemptsAsWrittenOf(w, job, crcFlag), attempts, st)
  }

  /** Two ways of running an attempt that agree on the polls of every
      attempt give the same bus loop. */
  lemma {:induction false} RunnersAgree(run1: Runner, run2: Runner, attempts: seq<seq<Poll>>, st: BusState)
    requires forall b, f, i :: 0 <= i < |attempts| ==> run1(b, f, attempts[i]) == run2(b, f, attempts[i])
    ensures BusLoopWith(run1, attempts, st) == BusLoopWith(run2, attempts, st)
    decreases |attempts|
  {
    if st.retry <= MaxBusRetries && |attempts| > 0 {
      var a := run1(st.buffers, st.fields, attempts[0]);
      assert a == run2(st.buffers, st.fields, attempts[0]);
      if a.outcome.Failed? && !a.lockHeld {
        forall b, f, i | 0 <= i < |attempts[1..]|
          ensures run1(b, f, attempts[1..][i]) == run2(b, f, attempts[1..][i])
        {
          assert attempts[1..][i] == attempts[i + 1];
        }
        RunnersAgree(run1, run2, attempts[1..], AfterFailure(st, a));
      }
    }
  }

  /** When no read of any attempt raises, the bus loop as written is the
      corrected one. */
  lemma BusLoopsAgree(w: Worker, job: seq<string>, crcFlag: string, attempts: seq<seq<Poll>>, st: BusState)
    requires forall i :: 0 <= i < |attempts| ==> !ReadRaised(attempts[i])
    ensures BusLoopAsWritten(w, job, crcFlag, attempts, st) == BusLoop(w, job, crcFlag, attempts, st)
  {
    forall b, f, i | 0 <= i < |attempts|
      ensures AttemptsAsWrittenOf(w, job, crcFlag)(b, f, attempts[i]) == AttemptsOf(w, job, crcFlag)(b, f, attempts[i])
    {
      AttemptsAgree(w, job, crcFlag, b, f, attempts[i]);
    }
    RunnersAgree(AttemptsAsWrittenOf(w, job, crcFlag), AttemptsOf(w, job, crcFlag), attempts, st);
  }

  /** The two attempt runners agree on polls whose reads all return. */
  lemma AgreeOn(w: Worker, job: seq<string>, crcFlag: string, polls: seq<Poll>)
    requires !ReadRaised(polls)
    ensures forall b, f :: AttemptsAsWrittenOf(w, job, crcFlag)(b, f, polls) == AttemptsOf(w, job, crcFlag)(b, f, polls)
  {
    forall b, f
      ensures AttemptsAsWrittenOf(w, job, crcFlag)(b, f, polls) == AttemptsOf(w, job, crcFlag)(b, f, polls)
    {
      AttemptsAgree(w, job, crcFlag, b, f, polls);
    }
  }

  /** The corrected bus loop never deadlocks, and a share it delivers is
      the accepted verdict on an existing buffer whose split is `result`. */
  lemma {:induction false} BusLoopDelivers(w: Worker, job: seq<string>, crcFlag: string, attempts: seq<seq<Poll>>, st: BusState)
    ensures var r := BusLoop(w, job, crcFlag, attempts, st);
            && !r.outcome.Deadlocked?
            && (r.outcome.Delivered? ==>
                  exists key :: key in r.state.buffers && Validate(r.state.buffers[key], crcFlag) == Accepted(r.outcome.share)
                                && r.state.fields == Split(r.state.buffers[key], FieldSep))
    decreases |attempts|
  {
    if st.retry <= MaxBusRetries && |attempts| > 0 {
      var a := RunAttempt(w, job, crcFlag, st.buffers, st.fields, attempts[0]);
      if a.outcome.Failed? {
        BusLoopDelivers(w, job, crcFlag, attempts[1..], AfterFailure(st, a));
      }
    }
  }

  /** Number of failed attempts in a log. */
  function Failures(log: seq<AttemptOutcome>): nat
  {
    if |log| == 0 then 0 else (if log[0].Failed? then 1 else 0) + Failures(log[1..])
  }

  /** Number of checksum failures in a log. */
  function CrcFailures(log: seq<AttemptOutcome>): nat
  {
    if |log| == 0 then 0 else (if IsCrcFailure(log[0]) then 1 else 0) + CrcFailures(log[1..])
  }

  /** The tallies count the attempts: the counter and the bus retry tally
      grow by the number of failed attempts and the bad-checksum tally by
      the number of checksum failures. */
  lemma {:induction false} BusLoopCounts(run: Runner, attempts: seq<seq<Poll>>, st: BusState)
    ensures var r := BusLoopWith(run, attempts, st);
            && r.state.retry == st.retry + Failures(r.log)
            && r.state.counters.busRetries == st.counters.busRetries + Failures(r.log)
            && r.state.counters.badCrc == st.counters.badCrc + CrcFailures(r.log)
    decreases |attempts|
  {
    if st.retry <= MaxBusRetries && |attempts| > 0 {
      var a := run(st.buffers, st.fields, attempts[0]);
      if a.outcome.Failed? {
        var next := AfterFailure(st, a);
        BusLoopCounts(run, attempts[1..], next);
        var rest := BusLoopWith(run, attempts[1..], next);
        var log := [a.outcome] + rest.log;
        assert log[0] == a.outcome && log[1..] == rest.log;
      } else {
        assert [a.outcome][1..] == [];
      }
    }
  }

  /** Every attempt but the last failed; a delivered share is the last
      attempt's; and starting from counter zero the loop gives up only
      after eleven attempts, all of them failed. */
  lemma {:induction false} BusLoopLog(run: Runner, attempts: seq<seq<Poll>>, st: BusState)
    ensures var r := BusLoopWith(run, attempts, st);
            && |r.log| <= |attempts|
            && (forall i :: 0 <= i < |r.log| - 1 ==> r.log[i].Failed?)
            && (r.outcome.Delivered? ==> |r.log| > 0 && r.log[|r.log| - 1] == Valid(r.outcome.share))
            && (r.outcome.GaveUp? && st.retry <= MaxBusRetries ==>
                  |r.log| == MaxBusRetries + 1 - st.retry && forall i :: 0 <= i < |r.log| ==> r.log[i].Failed?)
    decreases |attempts|
  {
    if st.retry <= MaxBusRetries && |attempts| > 0 {
      var a := run(st.buffers, st.fields, attempts[0]);
      if a.outcome.Failed? {
        var next := AfterFailure(st, a);
        BusLoopLog(run, attempts[1..], next);
        var rest := BusLoopWith(run, attempts[1..], next);
        var log := [a.outcome] + rest.log;
        assert forall i :: 1 <= i < |log| ==> log[i] == rest.log[i - 1];
      }
    }
  }

  /** What the miner hands on to hashrate and submission: the nonce, time
      and device id read back from `result`. */
  datatype Submission = Submission(nonce: int, micros: int, deviceId: string)

  /** Whether `round(micros / 1000000, 5)` is zero, so that dividing the
      nonce by it raises ZeroDivisionError: the quotient rounds to 0.0 (or
      -0.0) for -4 to 4 microseconds, and to 0.00001 (or -0.00001) from 5
      microseconds on (5 millionths rounds up). */
  predicate TimeRoundsToZero(micros: int)
  {
    -5 < micros < 5
  }

  /** Whether a bus loop that ended so gets to the hand-off at all: a
      loop that ran out of polls is still polling, and a deadlocked one is
      blocked on `serlock`, so only a delivered share or a give-up gets
      there. */
  predicate ReachesHandoff(o: BusOutcome)
  {
    o.Delivered? || o.GaveUp?
  }

  /** Whether a `result` read back by the hand-off as written gets through
      both `int` conversions, the hashrate division and the `result[2]` of
      the submission. */
  predicate Submittable(f: seq<string>)
  {
    && |f| >= 3
    && ParseInt(f[0], 10).Some?
    && ParseInt(f[1], 10).Some?
    && !TimeRoundsToZero(ParseInt(f[1], 10).value)
  }

  /** The hand-off as written: after the bus loop, whatever `result` holds
      is read back, whether the loop delivered a share or gave up; a worker
      whose loop stalled or deadlocked never gets here. A
      `result` with fewer than two fields, a field that is not an integer,
      or a time that rounds to zero seconds fails at the hashrate step,
      whose handler flushes the bus and reconnects; a two-field `result`
      gets past it and fails at `result[2]` in the submission, whose
      handler waits and reconnects without a flush. Either way nothing is
      submitted (`None`). */
  function HandoffAsWritten(r: BusResult): (sub: Option<Submission>)
    ensures sub.Some? <==> ReachesHandoff(r.outcome) && Submittable(r.state.fields)
    ensures sub.Some? ==>
      && sub.value.deviceId == r.state.fields[2]
      && ParseInt(r.state.fields[0], 10) == Some(sub.value.nonce)
      && ParseInt(r.state.fields[1], 10) == Some(sub.value.micros)
  {
    var f := r.state.fields;
    if !ReachesHandoff(r.outcome) || |f| < 2 then None
    else match (ParseInt(f[1], 10), ParseInt(f[0], 10))
      case (Some(m), Some(n)) => if TimeRoundsToZero(m) || |f| < 3 then None else Some(Submission(n, m, f[2]))
      case _ => None
  }

  /** The hand-off with the give-up case handled: only a delivered share
      is handed on; a time that rounds to zero seconds is the same error as
      in the hand-off as written. */
  function Handoff(r: BusResult): (sub: Option<Submission>)
    ensures sub.Some? <==> r.outcome.Delivered? && !TimeRoundsToZero(r.outcome.share.micros)
  {
    match r.outcome
    case Delivered(s) => if TimeRoundsToZero(s.micros) then None else Some(Submission(s.nonce, s.micros, s.deviceId))
    case _ => None
  }

  /** What the corrected loop and hand-off submit was validated: it is the
      accepted verdict on an existing buffer, and on a delivered share the
      hand-off as written agrees with the corrected one. */
  lemma HandoffValidated(w: Worker, job: seq<string>, crcFlag: string, attempts: seq<seq<Poll>>, st: BusState)
    ensures var r := BusLoop(w, job, crcFlag, attempts, st);
            var sub := Handoff(r);
            && (sub.Some? ==>
                  exists key :: key in r.state.buffers
                                && Validate(r.state.buffers[key], crcFlag) == Accepted(Share(sub.value.nonce, sub.value.micros, sub.value.deviceId)))
            && (r.outcome.Delivered? ==> HandoffAsWritten(r) == sub)
  {
    BusLoopDelivers(w, job, crcFlag, attempts, st);
  }

  /** `n` attempts that each see the same replies. */
  function Repeat(polls: seq<Poll>, n: nat): (attempts: seq<seq<Poll>>)
    ensures |attempts| == n
    ensures forall i :: 0 <= i < n ==> attempts[i] == polls
  {
    if n == 0 then [] else [polls] + Repeat(polls, n - 1)
  }

  /** Attempts that fail whatever state they start from, always leaving
      the same `result`, make the loop give up with that `result`. */
  lemma {:induction false} RepeatedFailureGivesUp(run: Runner, polls: seq<Poll>, fields: seq<string>, n: nat, st: BusState)
    requires forall b, f :: run(b, f, polls).outcome.Failed? && !run(b, f, polls).lockHeld && run(b, f, polls).fields == fields
    requires n >= 1 && st.retry + n == MaxBusRetries + 1
    ensures BusLoopWith(run, Repeat(polls, n), st).outcome == GaveUp
    ensures BusLoopWith(run, Repeat(polls, n), st).state.fields == fields
    decreases n
  {
    var a := run(st.buffers, st.fields, polls);
    assert Repeat(polls, n)[0] == polls && Repeat(polls, n)[1..] == Repeat(polls, n - 1);
    if n > 1 {
      RepeatedFailureGivesUp(run, polls, fields, n - 1, AfterFailure(st, a));
    }
  }

  /** A device that sends answer text with the field count the setting
      waits for completes the attempt's read on the worker's own buffer,
      which then holds exactly that text. */
  lemma AnswerRead(w: Worker, text: string, buffers: Buffers, crcFlag: string)
    requires AnswerText(text)
    requires (crcFlag == "y" && Count(text, FieldSep) == 3) || (crcFlag == "n" && Count(text, FieldSep) == 2)
    ensures var key := BufferKey(w);
            var r := ReadLoop(AnswerPolls(key, text), ReadState(buffers[key := ""], [], Reading), crcFlag);
            && r.status == Complete(key) && key in r.buffers && r.buffers[key] == text
  {
    KeyEcho(w);
    AnswerTextCompletes(BufferKey(w), text, buffers[BufferKey(w) := ""], crcFlag);
  }

  /** An attempt whose read completes on the worker's own buffer ends with
      that buffer's verdict, and leaves its split in `result`. */
  lemma CompletedAttempt(w: Worker, job: seq<string>, crcFlag: string, buffers: Buffers,
                         fields: seq<string>, polls: seq<Poll>, text: string)
    requires |job| >= 3
    requires var key := BufferKey(w);
             var r := ReadLoop(polls, ReadState(buffers[key := ""], [], Reading), crcFlag);
             r.status == Complete(key) && key in r.buffers && r.buffers[key] == text
    ensures var a := RunAttempt(w, job, crcFlag, buffers, fields, polls);
            && a.fields == Split(text, FieldSep)
            && a.outcome == match Validate(text, crcFlag)
                            case Accepted(s) => Valid(s)
                            case Rejected(why) => Failed(Invalid(why))
  {
    var start := ReadState(buffers[BufferKey(w) := ""], [], Reading);
    ReadLoopCompletes(polls, start, crcFlag);
    assert BuildJob(job, crcFlag).Some?;
  }

  /** An attempt whose device answers with share `s` but checksum `c`
      other than the right one fails on the checksum and leaves the
      answer's fields in `result`. */
  lemma BadChecksumAttempt(w: Worker, job: seq<string>, buffers: Buffers, fields: seq<string>, s: Share, c: int)
    requires |job| >= 3
    requires s.nonce > 0 && s.micros >= 0 && IsAlnum(s.deviceId) && c >= 0
    requires c != Crc8.TextCrc(Join(ShareFields(s), FieldSep) + [FieldSep])
    ensures var front := Join(ShareFields(s), FieldSep) + [FieldSep];
            var a := RunAttempt(w, job, "y", buffers, fields, AnswerPolls(BufferKey(w), front + Decimal(c)));
            && a.outcome == Failed(Invalid(CrcMismatch(Crc8.TextCrc(front), c)))
            && a.fields == ShareFields(s) + [Decimal(c)]
  {
    var front := Join(ShareFields(s), FieldSep) + [FieldSep];
    var frame := front + Decimal(c);
    BadChecksumFrame(s, c);
    AnswerRead(w, frame, buffers, "y");
    CompletedAttempt(w, job, "y", buffers, fields, AnswerPolls(BufferKey(w), frame), frame);
    WrongChecksumRejected(s, c);
  }

  /** The answer with a wrong checksum is answer text with four fields. */
  lemma BadChecksumFrame(s: Share, c: int)
    requires s.nonce > 0 && s.micros >= 0 && IsAlnum(s.deviceId) && c >= 0
    ensures var frame := Join(ShareFields(s), FieldSep) + [FieldSep] + Decimal(c);
            && AnswerText(frame)
            && Count(frame, FieldSep) == 3
            && Split(frame, FieldSep) == ShareFields(s) + [Decimal(c)]
  {
    var fs := ShareFields(s);
    var d := Decimal(c);
    DecimalIsAlnum(s.nonce);
    DecimalIsAlnum(s.micros);
    DecimalIsAlnum(c);
    JoinSnoc(fs, d, FieldSep);
    JoinedAnswerText(fs + [d]);
    DecimalAlphabet(c);
    CheckedFrame(s, d);
  }

  /** A correct device's answer, in either checksum setting, is answer
      text with the field count the read loop waits for. */
  lemma GoodFrame(s: Share, crcFlag: string)
    requires s.nonce > 0 && s.micros >= 0 && IsAlnum(s.deviceId)
    requires crcFlag == "y" || crcFlag == "n"
    ensures var frame := DeviceFrame(s, crcFlag == "y");
            && AnswerText(frame)
            && Count(frame, FieldSep) == (if crcFlag == "y" then 3 else 2)
  {
    var fs := ShareFields(s);
    DecimalIsAlnum(s.nonce);
    DecimalIsAlnum(s.micros);
    ShareFieldsClean(s);
    if crcFlag == "y" {
      var front := Join(fs, FieldSep) + [FieldSep];
      var d := Decimal(Crc8.TextCrc(front));
      DecimalIsAlnum(Crc8.TextCrc(front));
      DecimalAlphabet(Crc8.TextCrc(front));
      JoinSnoc(fs, d, FieldSep);
      JoinedAnswerText(fs + [d]);
      CheckedFrame(s, d);
      assert DeviceFrame(s, true) == front + d;
    } else {
      JoinedAnswerText(fs);
      SplitJoin(fs, FieldSep);
    }
  }

  /** A device that answers correctly has its share delivered by the first
      attempt, with no retry counted, by the loop as written as well as
      the corrected one; it is handed on unless its time rounds to zero
      seconds. */
  lemma GoodAnswerDelivered(w: Worker, job: seq<string>, buffers: Buffers, counters: Counters, s: Share, crcFlag: string)
    requires |job| >= 3
    requires s.nonce > 0 && s.micros >= 0 && IsAlnum(s.deviceId)
    requires crcFlag == "y" || crcFlag == "n"
    ensures var polls := AnswerPolls(BufferKey(w), DeviceFrame(s, crcFlag == "y"));
            var r := BusLoop(w, job, crcFlag, [polls], BusState(0, counters, buffers, []));
            && r.outcome == Delivered(s)
            && r.state.counters == counters
            && BusLoopAsWritten(w, job, crcFlag, [polls], BusState(0, counters, buffers, [])) == r
            && Handoff(r) == if TimeRoundsToZero(s.micros) then None else Some(Submission(s.nonce, s.micros, s.deviceId))
  {
    var key := BufferKey(w);
    var frame := DeviceFrame(s, crcFlag == "y");
    var polls := AnswerPolls(key, frame);
    var st := BusState(0, counters, buffers, []);
    GoodAttempt(w, job, buffers, [], s, crcFlag);
    AnswerPollsDeliver(key, frame);
    AgreeOn(w, job, crcFlag, polls);
    FirstAttemptDelivers(AttemptsAsWrittenOf(w, job, crcFlag), AttemptsOf(w, job, crcFlag), polls, st, s);
  }

  /** The attempt behind `GoodAnswerDelivered`. */
  lemma GoodAttempt(w: Worker, job: seq<string>, buffers: Buffers, fields: seq<string>, s: Share, crcFlag: string)
    requires |job| >= 3
    requires s.nonce > 0 && s.micros >= 0 && IsAlnum(s.deviceId)
    requires crcFlag == "y" || crcFlag == "n"
    ensures RunAttempt(w, job, crcFlag, buffers, fields, AnswerPolls(BufferKey(w), DeviceFrame(s, crcFlag == "y"))).outcome == Valid(s)
  {
    var frame := DeviceFrame(s, crcFlag == "y");
    var polls := AnswerPolls(BufferKey(w), frame);
    GoodFrame(s, crcFlag);
    AnswerRead(w, frame, buffers, crcFlag);
    CompletedAttempt(w, job, crcFlag, buffers, fields, polls, frame);
    FrameAccepted(s, crcFlag);
  }

  /** A first attempt that delivers a share ends the loop with it, the
      tallies unchanged, under either of two runners that agree on it. */
  lemma FirstAttemptDelivers(run1: Runner, run2: Runner, polls: seq<Poll>, st: BusState, s: Share)
    requires st.retry <= MaxBusRetries
    requires forall b, f :: run1(b, f, polls) == run2(b, f, polls)
    requires run2(st.buffers, st.fields, polls).outcome == Valid(s)
    ensures BusLoopWith(run2, [polls], st).outcome == Delivered(s)
    ensures BusLoopWith(run2, [polls], st).state.counters == st.counters
    ensures BusLoopWith(run1, [polls], st) == BusLoopWith(run2, [polls], st)
  {
    assert [polls][0] == polls;
  }


  /** A failed read deadlocks the loop as written: when the worker's own
      device sends a data token and the next read raises, the attempt as
      written files the token twice and blocks on the bus semaphore, so the
      bus loop ends deadlocked with no retry counted; the corrected loop
      files the token once and keeps reading. */
  lemma FailedReadDeadlocks(w: Worker, job: seq<string>, crcFlag: string, buffers: Buffers, counters: Counters, tok: string)
    requires |job| >= 3
    requires CleanData(tok)
    ensures var key := BufferKey(w);
            var polls := [Poll(Some([key, tok]), false), Poll(None, false)];
            var st := BusState(0, counters, buffers, []);
            var r := BusLoopAsWritten(w, job, crcFlag, [polls], st);
            var c := BusLoop(w, job, crcFlag, [polls], st);
            && r.outcome == Deadlocked && r.state.counters == counters
            && key in r.state.buffers && r.state.buffers[key] == tok + tok
            && c.outcome == Stalled && c.state.counters == counters
            && key in c.state.buffers && c.state.buffers[key] == tok
  {
    var key := BufferKey(w);
    var polls := [Poll(Some([key, tok]), false), Poll(None, false)];
    FailedReadAttempt(w, job, crcFlag, buffers, [], tok);
    assert [polls][0] == polls;
  }

  /** The attempt behind `FailedReadDeadlocks`. */
  lemma FailedReadAttempt(w: Worker, job: seq<string>, crcFlag: string, buffers: Buffers, fields: seq<string>, tok: string)
    requires |job| >= 3
    requires CleanData(tok)
    ensures var key := BufferKey(w);
            var polls := [Poll(Some([key, tok]), false), Poll(None, false)];
            var a := RunAttemptAsWritten(w, job, crcFlag, buffers, fields, polls);
            var c := RunAttempt(w, job, crcFlag, buffers, fields, polls);
            && a.outcome == Hung && key in a.buffers && a.buffers[key] == tok + tok
            && c.outcome == Waiting && key in c.buffers && c.buffers[key] == tok
  {
    var key := BufferKey(w);
    var polls := [Poll(Some([key, tok]), false), Poll(None, false)];
    var b := buffers[key := ""];
    var start := ReadState(b, [], Reading);
    var r := ReadLoopAsWritten(polls, start, [], crcFlag);
    var q := ReadLoop(polls, start, crcFlag);
    assert r.state.status == Blocked && r.state.buffers[key] == tok + tok
        && q.status == Reading && q.buffers[key] == tok by {
      assert b[key] == "" && b[key] + tok + tok == tok + tok && b[key] + tok == tok by {
        assert "" + tok == tok;
      }
      KeyEcho(w);
      StaleReplyDuplicates(key, tok, b, crcFlag);
    }
    assert BuildJob(job, crcFlag).Some?;
    var a := RunAttemptAsWritten(w, job, crcFlag, buffers, fields, polls);
    assert a == Conclude(r.state, crcFlag, r.lockHeld);
    assert a.outcome == Hung && a.buffers == r.state.buffers;
    var c := RunAttempt(w, job, crcFlag, buffers, fields, polls);
    assert c == Conclude(q, crcFlag, false);
    assert c.outcome == Waiting && c.buffers == q.buffers;
  }

  /** The give-up case as written: a share whose answer failed its
      checksum eleven times running is given up on by the loop as written,
      and yet the hand-off as written submits it, read back from the stale
      `result`, unless its time rounds to zero seconds; the corrected
      hand-off submits nothing. */
  lemma StaleResultSubmitted(w: Worker, job: seq<string>, buffers: Buffers, counters: Counters, s: Share, c: int)
    requires |job| >= 3
    requires s.nonce > 0 && s.micros >= 0 && IsAlnum(s.deviceId) && c >= 0
    requires c != Crc8.TextCrc(Join(ShareFields(s), FieldSep) + [FieldSep])
    ensures var polls := AnswerPolls(BufferKey(w), Join(ShareFields(s), FieldSep) + [FieldSep] + Decimal(c));
            var r := BusLoopAsWritten(w, job, "y", Repeat(polls, MaxBusRetries + 1), BusState(0, counters, buffers, []));
            && r.outcome == GaveUp
            && HandoffAsWritten(r) == (if TimeRoundsToZero(s.micros) then None else Some(Submission(s.nonce, s.micros, s.deviceId)))
            && Handoff(r) == None
  {
    var front := Join(ShareFields(s), FieldSep) + [FieldSep];
    var polls := AnswerPolls(BufferKey(w), front + Decimal(c));
    var fields := ShareFields(s) + [Decimal(c)];
    var run := AttemptsOf(w, job, "y");
    var r := BusLoopWith(run, Repeat(polls, MaxBusRetries + 1), BusState(0, counters, buffers, []));
    assert r.outcome == GaveUp && r.state.fields == fields by {
      BadChecksumRunner(w, job, s, c);
      RepeatedFailureGivesUp(run, polls, fields, MaxBusRetries + 1, BusState(0, counters, buffers, []));
    }
    assert !ReadRaised(polls) by { AnswerPollsDeliver(BufferKey(w), front + Decimal(c)); }
    BusLoopsAgree(w, job, "y", Repeat(polls, MaxBusRetries + 1), BusState(0, counters, buffers, []));
    StaleFields(s, Decimal(c), r);
  }

  /** Every bad-checksum attempt fails and leaves the same `result`,
      whatever buffers and `result` it starts from. */
  lemma BadChecksumRunner(w: Worker, job: seq<string>, s: Share, c: int)
    requires |job| >= 3
    requires s.nonce > 0 && s.micros >= 0 && IsAlnum(s.deviceId) && c >= 0
    requires c != Crc8.TextCrc(Join(ShareFields(s), FieldSep) + [FieldSep])
    ensures var polls := AnswerPolls(BufferKey(w), Join(ShareFields(s), FieldSep) + [FieldSep] + Decimal(c));
            forall b, f :: AttemptsOf(w, job, "y")(b, f, polls).outcome.Failed?
                        && AttemptsOf(w, job, "y")(b, f, polls).fields == ShareFields(s) + [Decimal(c)]
  {
    var polls := AnswerPolls(BufferKey(w), Join(ShareFields(s), FieldSep) + [FieldSep] + Decimal(c));
    forall b, f
      ensures AttemptsOf(w, job, "y")(b, f, polls).outcome.Failed?
           && AttemptsOf(w, job, "y")(b, f, polls).fields == ShareFields(s) + [Decimal(c)]
    {
      BadChecksumAttempt(w, job, b, f, s, c);
    }
  }

  /** A loop that gave up with a share's fields in `result` is handed on
      as that share by the hand-off as written, and not at all by the
      corrected one. */
  lemma StaleFields(s: Share, d: string, r: BusResult)
    requires r.outcome == GaveUp && r.state.fields == ShareFields(s) + [d]
    ensures HandoffAsWritten(r) == if TimeRoundsToZero(s.micros) then None else Some(Submission(s.nonce, s.micros, s.deviceId))
    ensures Handoff(r) == None
  {
    var f := r.state.fields;
    assert |f| == 4 && f[0] == Decimal(s.nonce) && f[1] == Decimal(s.micros) && f[2] == s.deviceId;
    assert ParseInt(f[0], 10) == Some(s.nonce) by { DecimalRoundTrip(s.nonce); }
    assert ParseInt(f[1], 10) == Some(s.micros) by { DecimalRoundTrip(s.micros); }
  }

  /** The pool loop's progress: whether it connected, how many fresh
      endpoints it fetched, its counter, and how many connection attempts
      it made. */
  datatype ConnectResult = ConnectResult(connected: bool, fetches: nat, counter: nat, tries: nat)

  /** The pool loop over the outcomes of successive connection attempts
      (`true` for a connection that succeeded). */
  function ConnectLoop(results: seq<bool>, counter: nat): (r: ConnectResult)
    ensures r.tries <= |results|
    ensures r.connected ==> r.tries > 0 && results[r.tries - 1] && forall i :: 0 <= i < r.tries - 1 ==> !results[i]
    ensures !r.connected ==> r.tries == |results| && forall i :: 0 <= i < |results| ==> !results[i]
    decreases |results|
  {
    var c := if counter > MaxPoolRetries then 0 else counter;
    var fetched := if counter > MaxPoolRetries then 1 else 0;
    if |results| == 0 then ConnectResult(false, 0, counter, 0)
    else if results[0] then ConnectResult(true, fetched, c, 1)
    else
      var rest := ConnectLoop(results[1..], c + 1);
      ConnectResult(rest.connected, fetched + rest.fetches, rest.counter, rest.tries + 1)
  }

  /** A failed connection: the counter is reset past three, with a fresh
      endpoint fetched, then bumped, and the loop goes on. */
  lemma FailStep(rs: seq<bool>, c: nat)
    requires |rs| > 0 && !rs[0]
    ensures var c' := if c > MaxPoolRetries then 0 else c;
            var r := ConnectLoop(rs, c);
            var rest := ConnectLoop(rs[1..], c' + 1);
            && r.connected == rest.connected
            && r.fetches == (if c > MaxPoolRetries then 1 else 0) + rest.fetches
            && r.tries == rest.tries + 1
  {
  }

  /** Resetting a counter of four to zero while fetching once keeps the
      number of fetches per four failures. */
  lemma FetchCount(c: nat, k: nat)
    requires c <= MaxPoolRetries + 1
    ensures (if c > MaxPoolRetries then 1 else 0) + ((if c > MaxPoolRetries then 0 else c) + k) / 4 == (c + k) / 4
  {
    if c > MaxPoolRetries {
      assert c + k == 4 + k;
    }
  }

  /** After `k` failed connections the loop has fetched a fresh endpoint
      once for every four failures: with counter `c` (at most four) it
      fetches `(c + k) / 4` times before connecting on attempt `k + 1`. */
  lemma {:induction false} FetchesPerFailures(results: seq<bool>, c: nat)
    requires |results| >= 1 && results[|results| - 1]
    requires forall i :: 0 <= i < |results| - 1 ==> !results[i]
    requires c <= MaxPoolRetries + 1
    ensures var r := ConnectLoop(results, c);
            r.connected && r.fetches == (c + |results| - 1) / 4 && r.tries == |results|
    decreases |results|
  {
    var k := |results| - 1;
    if k > 0 {
      var c' := if c > MaxPoolRetries then 0 else c;
      FailStep(results, c);
      FetchesPerFailures(results[1..], c' + 1);
      assert c' + 1 + |results[1..]| - 1 == c' + k;
      FetchCount(c, k);
    } else {
      assert c / 4 == if c > MaxPoolRetries then 1 else 0;
    }
  }

}
