/** What happens after a share is submitted: the pool's one-line verdict
    is read and tallied into the miner-wide share counts, the first worker
    reports the counters' growth once a minute, and the hashrate and ping
    figures are averaged over the last five and ten samples. */
module Feedback {
  import opened Wrappers
  import opened PyText
  import opened Framing

  /** The pool's verdict on a submitted share. */
  datatype PoolVerdict =
    | Good
    | Block
    | Bad(reason: Option<string>)
    | Unknown(fields: seq<string>)
  {
    /** An unrecognised answer makes the worker flush the bus. */
    predicate Flushes()
    {
      Unknown?
    }
  }

  /** The verdict in a received line: the socket layer drops trailing
      newlines, then the line is split on commas and its first field
      decides; "BAD" takes its reason from the second field when there is
      one. */
  function ParseFeedback(raw: string): (v: PoolVerdict)
    ensures var f := Split(TrimRight(raw, {'\n'}), FieldSep);
      && (v.Good? <==> f[0] == "GOOD")
      && (v.Block? <==> f[0] == "BLOCK")
      && (v.Bad? <==> f[0] == "BAD")
      && (v.Bad? ==> (v.reason.Some? <==> |f| > 1) && (|f| > 1 ==> v.reason == Some(f[1])))
      && (v.Unknown? ==> v.fields == f)
  {
    var f := Split(TrimRight(raw, {'\n'}), FieldSep);
    if f[0] == "GOOD" then Good
    else if f[0] == "BLOCK" then Block
    else if f[0] == "BAD" then Bad(if |f| > 1 then Some(f[1]) else None)
    else Unknown(f)
  }

  /** The worker flushes the bus after a verdict line exactly when the
      line's first field is none of the three known words. */
  lemma FlushesOnUnknownWord(raw: string)
    ensures var f := Split(TrimRight(raw, {'\n'}), FieldSep);
            ParseFeedback(raw).Flushes() <==> f[0] != "GOOD" && f[0] != "BLOCK" && f[0] != "BAD"
  {
  }

  /** The line a pool sends for a verdict. */
  function RenderFeedback(v: PoolVerdict): string
  {
    match v
    case Good => "GOOD"
    case Block => "BLOCK"
    case Bad(None) => "BAD"
    case Bad(Some(r)) => "BAD" + [FieldSep] + r
    case Unknown(f) => Join(f, FieldSep)
  }

  /** A verdict line the pool may send: a reason holds no comma and does
      not end in a newline, and an unknown answer is not one of the three
      known words. */
  predicate Sendable(v: PoolVerdict)
  {
    match v
    case Good => true
    case Block => true
    case Bad(r) => r.Some? ==> FieldSep !in r.value && (r.value == [] || r.value[|r.value| - 1] != '\n')
    case Unknown(f) =>
      && |f| >= 1 && f[0] != "GOOD" && f[0] != "BLOCK" && f[0] != "BAD"
      && (forall i :: 0 <= i < |f| ==> FieldSep !in f[i])
      && f[|f| - 1] != [] && f[|f| - 1][|f[|f| - 1]| - 1] != '\n'
  }

  lemma TrimRightNoNewline(s: string)
    requires s == [] || s[|s| - 1] != '\n'
    ensures TrimRight(s, {'\n'}) == s
  {
  }

  /** Round trip: every verdict the pool can send is read back as sent,
      with a trailing newline or without. */
  lemma FeedbackRoundTrip(v: PoolVerdict, newline: bool)
    requires Sendable(v)
    ensures ParseFeedback(RenderFeedback(v) + (if newline then "\n" else "")) == v
  {
    var line := RenderFeedback(v);
    var raw := line + (if newline then "\n" else "");
    assert TrimRight(raw, {'\n'}) == line by {
      LastNotNewline(v);
      TrimRightNoNewline(line);
      if newline {
        assert raw[..|raw| - 1] == line;
      } else {
        assert raw == line;
      }
    }
    LineRoundTrip(v);
  }

  /** A sendable verdict's line, split on commas, gives back the verdict. */
  lemma LineRoundTrip(v: PoolVerdict)
    requires Sendable(v)
    ensures var line := RenderFeedback(v);
            ParseFeedback(line) == v
  {
    var line := RenderFeedback(v);
    assert TrimRight(line, {'\n'}) == line by {
      LastNotNewline(v);
      TrimRightNoNewline(line);
    }
    match v
    case Good => SplitJoin(["GOOD"], FieldSep);
    case Block => SplitJoin(["BLOCK"], FieldSep);
    case Bad(None) => SplitJoin(["BAD"], FieldSep);
    case Bad(Some(r)) =>
      assert line == Join(["BAD", r], FieldSep);
      SplitJoin(["BAD", r], FieldSep);
    case Unknown(f) => SplitJoin(f, FieldSep);
  }

  /** A rendered verdict does not end in a newline. */
  lemma LastNotNewline(v: PoolVerdict)
    requires Sendable(v)
    ensures var line := RenderFeedback(v); line == [] || line[|line| - 1] != '\n'
  {
    match v
    case Unknown(f) => JoinLast(f, FieldSep);
    case _ =>
  }

  /** A join ends with its last field, or with the separator if that field
      is empty. */
  lemma {:induction false} JoinLast(fields: seq<string>, sep: char)
    requires |fields| >= 1 && fields[|fields| - 1] != []
    ensures var j := Join(fields, sep); |j| > 0 && j[|j| - 1] == fields[|fields| - 1][|fields[|fields| - 1]| - 1]
  {
    if |fields| > 1 {
      JoinLast(fields[1..], sep);
    }
  }

  /** The miner-wide share counts `[accepted, rejected, blocks]`. */
  datatype Shares = Shares(accepted: nat, rejected: nat, blocks: nat)

  /** One verdict tallied: exactly one of accepted and rejected grows, and
      a block also counts as a block. */
  function Tally(sh: Shares, v: PoolVerdict): (r: Shares)
    ensures r.accepted + r.rejected == sh.accepted + sh.rejected + 1
    ensures r.accepted == sh.accepted + 1 <==> v.Good? || v.Block?
    ensures r.rejected == sh.rejected + 1 <==> v.Bad? || v.Unknown?
    ensures r.blocks == sh.blocks + (if v.Block? then 1 else 0)
    ensures sh.blocks <= sh.accepted ==> r.blocks <= r.accepted
  {
    match v
    case Good => sh.(accepted := sh.accepted + 1)
    case Block => sh.(accepted := sh.accepted + 1, blocks := sh.blocks + 1)
    case Bad(_) => sh.(rejected := sh.rejected + 1)
    case Unknown(_) => sh.(rejected := sh.rejected + 1)
  }

  function TallyAll(sh: Shares, vs: seq<PoolVerdict>): Shares
    decreases |vs|
  {
    if |vs| == 0 then sh else TallyAll(Tally(sh, vs[0]), vs[1..])
  }

  /** How many verdicts in `vs` satisfy `p`. */
  function CountWhere(vs: seq<PoolVerdict>, p: PoolVerdict -> bool): nat
  {
    if |vs| == 0 then 0 else (if p(vs[0]) then 1 else 0) + CountWhere(vs[1..], p)
  }

  predicate IsAccept(v: PoolVerdict) { v.Good? || v.Block? }
  predicate IsReject(v: PoolVerdict) { v.Bad? || v.Unknown? }
  predicate IsBlock(v: PoolVerdict) { v.Block? }

  /** After a run of verdicts the counts are the starting counts plus the
      number of accepted, rejected and block verdicts; the accepted and
      rejected counts together grow by one per verdict, and blocks never
      outnumber accepted shares. */
  lemma {:induction false} TallyCounts(sh: Shares, vs: seq<PoolVerdict>)
    ensures TallyAll(sh, vs).accepted == sh.accepted + CountWhere(vs, IsAccept)
    ensures TallyAll(sh, vs).rejected == sh.rejected + CountWhere(vs, IsReject)
    ensures TallyAll(sh, vs).blocks == sh.blocks + CountWhere(vs, IsBlock)
    ensures TallyAll(sh, vs).accepted + TallyAll(sh, vs).rejected == sh.accepted + sh.rejected + |vs|
    ensures sh.blocks <= sh.accepted ==> TallyAll(sh, vs).blocks <= TallyAll(sh, vs).accepted
    decreases |vs|
  {
    if |vs| > 0 {
      TallyCounts(Tally(sh, vs[0]), vs[1..]);
    }
  }

  /** The default report period in seconds (`Settings.REPORT_TIME`); the
      configuration's `periodic_report` replaces it, so the report
      functions take the period as a parameter. */
  const DefaultReportTime: nat := 60

  /** The counters a report looks at: accepted shares, blocks, checksum
      failures and bus retries, all miner-wide. */
  datatype Snapshot = Snapshot(accepted: nat, blocks: nat, badCrc: nat, busRetries: nat)

  /** The report: growth of accepted shares, checksum failures and bus
      retries since the last report, and the block total. */
  datatype Report = Report(shares: int, blocks: nat, badCrc: int, busRetries: int)

  /** The values of the counters at the last report. */
  datatype Baseline = Baseline(shares: nat, badCrc: nat, busRetries: nat)

  datatype ReportResult = ReportResult(report: Option<Report>, baseline: Baseline)

  /** After each share the first worker reports once the report period
      `period` has passed (`elapsed` in whole seconds since the last
      report), then resets its baseline to the current counters. */
  function ReportStep(threadId: nat, elapsed: nat, period: nat, now: Snapshot, base: Baseline): (r: ReportResult)
    ensures r.report.Some? <==> threadId == 0 && elapsed >= period
    ensures r.report.Some? ==>
      && r.report.value.shares + base.shares == now.accepted
      && r.report.value.badCrc + base.badCrc == now.badCrc
      && r.report.value.busRetries + base.busRetries == now.busRetries
      && r.report.value.blocks == now.blocks
      && r.baseline == Baseline(now.accepted, now.badCrc, now.busRetries)
    ensures r.report.None? ==> r.baseline == base
  {
    if threadId == 0 && elapsed >= period then
      ReportResult(Some(Report(now.accepted - base.shares, now.blocks, now.badCrc - base.badCrc,
                               now.busRetries - base.busRetries)),
                   Baseline(now.accepted, now.badCrc, now.busRetries))
    else ReportResult(None, base)
  }

  /** One report opportunity: the elapsed seconds and the counters then. */
  datatype Tick = Tick(elapsed: nat, now: Snapshot)

  /** The first worker's reports over a run of opportunities. */
  function ReportRun(ticks: seq<Tick>, period: nat, base: Baseline): (r: (seq<Report>, Baseline))
    decreases |ticks|
  {
    if |ticks| == 0 then ([], base)
    else
      var step := ReportStep(0, ticks[0].elapsed, period, ticks[0].now, base);
      var rest := ReportRun(ticks[1..], period, step.baseline);
      ((if step.report.Some? then [step.report.value] else []) + rest.0, rest.1)
  }

  function SharesReported(reports: seq<Report>): int
  {
    if |reports| == 0 then 0 else reports[0].shares + SharesReported(reports[1..])
  }

  function CrcReported(reports: seq<Report>): int
  {
    if |reports| == 0 then 0 else reports[0].badCrc + CrcReported(reports[1..])
  }

  function RetriesReported(reports: seq<Report>): int
  {
    if |reports| == 0 then 0 else reports[0].busRetries + RetriesReported(reports[1..])
  }

  /** Telescoping: the growth reported over a run, of accepted shares, of
      checksum failures and of bus retries, adds up to the growth of the
      baseline, so nothing is reported twice or lost between reports. */
  lemma {:induction false} ReportsTelescope(ticks: seq<Tick>, period: nat, base: Baseline)
    ensures var r := ReportRun(ticks, period, base);
            && SharesReported(r.0) + base.shares == r.1.shares
            && CrcReported(r.0) + base.badCrc == r.1.badCrc
            && RetriesReported(r.0) + base.busRetries == r.1.busRetries
    decreases |ticks|
  {
    if |ticks| > 0 {
      var step := ReportStep(0, ticks[0].elapsed, period, ticks[0].now, base);
      ReportsTelescope(ticks[1..], period, step.baseline);
      var rest := ReportRun(ticks[1..], period, step.baseline);
      if step.report.Some? {
        assert ([step.report.value] + rest.0)[1..] == rest.0;
      } else {
        assert [] + rest.0 == rest.0;
      }
    }
  }

  /** Sample counts of the hashrate and ping averages. */
  const HashrateWindow: nat := 5
  const PingWindow: nat := 10

  /** Python's `xs[-n:]` for `n > 0`: the last `n` samples, or all of them
      when there are fewer. */
  function Window<T>(xs: seq<T>, n: nat): (w: seq<T>)
    requires n > 0
    ensures |w| == if |xs| < n then |xs| else n
    ensures w == xs[|xs| - |w|..]
  {
    if |xs| < n then xs else xs[|xs| - n..]
  }

  /** The window can be kept incrementally: after one more sample it is the
      old window with the sample appended, trimmed to size. */
  lemma WindowAppend<T>(xs: seq<T>, x: T, n: nat)
    requires n > 0
    ensures Window(xs + [x], n) == Window(Window(xs, n) + [x], n)
  {
    if |xs| >= n {
      var w := xs[|xs| - n..];
      SuffixSnoc(xs, x, |xs| + 1 - n);
      SuffixSnoc(w, x, 1);
      assert w[1..] == xs[|xs| + 1 - n..];
    } else {
      assert Window(xs, n) == xs;
    }
  }

  lemma SuffixSnoc<T>(xs: seq<T>, x: T, k: nat)
    requires k <= |xs|
    ensures (xs + [x])[k..] == xs[k..] + [x]
  {
  }
}
