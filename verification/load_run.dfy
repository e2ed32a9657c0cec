/**
 * A loader run as a fold over the data lines of a file: each line is
 * normalised into a row and handed to the loader-specific `process_row`; user
 * errors either abort the run or, in warn mode, are skipped with coalesced
 * warnings; the run's report is assembled at the end, and a dry run restores
 * the initial store.
 */
module LoadRun {
  import opened Basics
  import opened PyStr
  import opened LoadStore
  import opened LoadAccount
  import opened LoadRow

  /** The loader's options, its `COLS`, its `missing_data` and `Model.decode_blank`. */
  datatype Config = Config(
    sep: char, canOverwrite: bool, warnOnError: bool, dryRun: bool,
    table: ColTable, missing: seq<Missing>, decodeBlank: string -> string)

  /** The pending coalesced warning `(err_name, msg, first_line, last_line)`. */
  datatype Pending = Pending(err: string, msg: string, first: nat, last: nat)

  /** The loader's state between lines. */
  datatype Loader = Loader(
    cols: seq<string>, ignored: seq<string>, linenum: nat, count: nat,
    stats: Stats, store: Store, warnings: seq<string>, pending: Option<Pending>)

  /** A loader-specific `process_row`: from the run's context (with an empty
      `rec`) and the row to the state after the row, and its error if any. */
  type ProcessRow = (RowCtx, map<string, string>) -> Step

  /** An error escaping `process_line`: its type, the line number, the error's
      message and the row (re-raised as `'at line {linenum}: {msg}, current row: {row}'`). */
  datatype LineFailure = LineFailure(kind: ErrKind, line: nat, msg: string, row: map<string, string>)

  /** The error types caught per row. */
  predicate UserFacing(k: ErrKind) {
    k == ValidationError || k == IntegrityError || k == UserDataError
  }

  /** `AbstractLoader.__init__`: map the header fields, start with empty tallies. */
  function NewLoader(cfg: Config, colnames: seq<string>, st: Store): (l: Loader)
    ensures |l.cols| == |colnames| && l.count == 0 && l.stats == NoStats && l.store == st
    ensures l.warnings == [] && l.pending.None?
    ensures l.cols == MapCols(cfg.table, colnames) && l.ignored == Ignored(cfg.table, colnames)
    ensures forall x :: x in l.ignored <==> x in colnames && Lookup(cfg.table, x).None?
  {
    Loader(MapCols(cfg.table, colnames), Ignored(cfg.table, colnames), 0, 0, NoStats, st, [], None)
  }

  /** The warning lines a pending warning turns into when it is emitted. */
  function Flush(p: Pending): (r: seq<string>)
    ensures |r| == if p.last != p.first then 2 else 1
    ensures r[0] == "skipping row: at line " + NatToStr(p.first) + ": " + p.msg + " (" + p.err + ")"
    ensures p.last != p.first ==> r[1] == "    (and for next " + IntToStr(p.last - p.first) + " lines)"
  {
    ["skipping row: at line " + NatToStr(p.first) + ": " + p.msg + " (" + p.err + ")"]
    + (if p.last != p.first then ["    (and for next " + IntToStr(p.last - p.first) + " lines)"] else [])
  }

  /** Record a warning for line `n`: extend the pending one when the message is
      the same and the line follows it directly, otherwise emit the pending one
      and start a new one. */
  function Coalesce(warnings: seq<string>, pending: Option<Pending>, err: string, msg: string, n: nat)
    : (r: (seq<string>, Pending))
    ensures r.1.msg == msg && r.1.last == n
    ensures pending.Some? && pending.value.msg == msg && pending.value.last + 1 == n ==>
              r == (warnings, Pending(pending.value.err, msg, pending.value.first, n))
    ensures pending.Some? && !(pending.value.msg == msg && pending.value.last + 1 == n) ==>
              r == (warnings + Flush(pending.value), Pending(err, msg, n, n))
    ensures pending.None? ==> r == (warnings, Pending(err, msg, n, n))
  {
    match pending
    case None => (warnings, Pending(err, msg, n, n))
    case Some(p) =>
      if msg == p.msg && p.last + 1 == n then (warnings, Pending(p.err, msg, p.first, n))
      else (warnings + Flush(p), Pending(err, msg, n, n))
  }

  /** `process_line(line)`. */
  function ProcessLine(cfg: Config, pr: ProcessRow, l: Loader, line: string): (r: Result<Loader, LineFailure>)
    // the line number advances first, the row is the normalised line
    ensures r.Err? ==> r.error.line == l.linenum + 1
                       && r.error.row == NormalizeRow(l.cols, cfg.table, cfg.missing, cfg.decodeBlank, line, cfg.sep)
    ensures r.Ok? ==> Advanced(l, r.value, 1)
  {
    var row := NormalizeRow(l.cols, cfg.table, cfg.missing, cfg.decodeBlank, line, cfg.sep);
    Settle(cfg, l, row, pr(RowCtx(l.stats, l.store, map[]), row))
  }

  /** What `process_line` makes of the row's outcome: commit, record a warning,
      or let the error escape. */
  function Settle(cfg: Config, l: Loader, row: map<string, string>, step: Step): (r: Result<Loader, LineFailure>)
    ensures r.Err? ==> r.error.line == l.linenum + 1 && r.error.row == row
    ensures r.Ok? ==> r.value.linenum == l.linenum + 1 && r.value.count == l.count + 1
    ensures r.Ok? ==> r.value.cols == l.cols && r.value.ignored == l.ignored
    // a row without error is committed and leaves the warnings alone
    ensures step.err.None? ==> r.Ok? && r.value.stats == step.ctx.stats && r.value.store == step.ctx.store
                                && r.value.warnings == l.warnings && r.value.pending == l.pending
    // an error escapes unless warn mode is on and it is a user-facing one
    ensures step.err.Some? ==> (r.Err? <==> !(cfg.warnOnError && UserFacing(step.err.value.kind)))
    ensures r.Err? ==> step.err.Some? && r.error.kind == step.err.value.kind && r.error.msg == step.err.value.msg
    // a skipped row: its database changes are rolled back, but the counters
    // restored are the same objects, so what the row counted before failing
    // stays counted
    ensures step.err.Some? && r.Ok? ==>
              && r.value.stats == step.ctx.stats && r.value.store == l.store
              && r.value.pending.Some?
              && r.value.pending.value.last == l.linenum + 1
              && r.value.pending.value.msg == step.err.value.msg
  {
    var n := l.linenum + 1;
    match step.err
    case None =>
      Ok(l.(linenum := n, count := l.count + 1, stats := step.ctx.stats, store := step.ctx.store))
    case Some(e) =>
      if UserFacing(e.kind) && cfg.warnOnError then
        var (ws, p) := Coalesce(l.warnings, l.pending, KindName(e.kind), e.msg, n);
        Ok(l.(linenum := n, count := l.count + 1, stats := step.ctx.stats, warnings := ws, pending := Some(p)))
      else
        Err(LineFailure(e.kind, n, e.msg, row))
  }

  /** `after` is `l` some `k` lines on, with the same column mapping. */
  predicate Advanced(l: Loader, after: Loader, k: nat) {
    && after.linenum == l.linenum + k && after.count == l.count + k
    && after.cols == l.cols && after.ignored == l.ignored
  }

  /** One line, then `k` more, make `k + 1`. */
  lemma AdvancedTrans(l: Loader, mid: Loader, after: Loader, k: nat)
    requires Advanced(l, mid, 1) && Advanced(mid, after, k)
    ensures Advanced(l, after, k + 1)
  {
  }

  /** `for i in file: self.process_line(i)`, stopping at the first escaping error. */
  function ProcessLines(cfg: Config, pr: ProcessRow, l: Loader, lines: seq<string>)
    : (r: Result<Loader, (LineFailure, string)>)
    ensures r.Ok? ==> Advanced(l, r.value, |lines|)
    // the `k`-th line (from 0) is processed as line number `linenum + k + 1`
    ensures r.Err? ==> exists k :: 0 <= k < |lines| && r.error.0.line == l.linenum + k + 1 && r.error.1 == lines[k]
    decreases |lines|
  {
    if |lines| == 0 then Ok(l)
    else
      match ProcessLine(cfg, pr, l, lines[0])
      case Err(f) => Err((f, lines[0]))
      case Ok(l1) =>
        var r := ProcessLines(cfg, pr, l1, lines[1..]);
        if r.Err? then
          var k :| 0 <= k < |lines[1..]| && r.error.0.line == l1.linenum + k + 1 && r.error.1 == lines[1..][k];
          assert r.error.1 == lines[k + 1];
          r
        else AdvancedTrans(l, l1, r.value, |lines| - 1); r
  }

  /** What `process_file` returns. */
  datatype Report = Report(
    count: nat, stats: Stats, ignored: seq<string>, warnings: seq<string>, dryRun: bool, overwrite: bool)

  /** How a run fails: a `UserDataError` propagates as is, anything else becomes
      a `RuntimeError('Failed processing line: ...')` caused by the line's error. */
  datatype FileError = UserData(cause: LineFailure) | Runtime(line: string, cause: LineFailure)

  /** The report or the error, and the store after the run's transaction. */
  datatype FileResult = FileResult(outcome: Result<Report, FileError>, store: Store)

  /** `process_file(file)` from a freshly constructed loader. */
  function ProcessFile(cfg: Config, pr: ProcessRow, l: Loader, lines: seq<string>): (r: FileResult)
    ensures r.outcome.Err? || cfg.dryRun ==> r.store == l.store
    ensures r.outcome.Ok? ==> && r.outcome.value.count == l.count + |lines|
                              && r.outcome.value.dryRun == cfg.dryRun
                              && r.outcome.value.overwrite == cfg.canOverwrite
                              && r.outcome.value.ignored == l.ignored
    ensures r.outcome.Err? && r.outcome.error.UserData? ==> r.outcome.error.cause.kind == UserDataError
    ensures r.outcome.Err? && r.outcome.error.Runtime? ==>
              && r.outcome.error.cause.kind != UserDataError
              && Quotes(1, lines, r.outcome.error.cause.line, r.outcome.error.line)
    // the report is the loop's: its tallies and warnings, and a wet run keeps its store
    ensures var run := ProcessLines(cfg, pr, l.(linenum := 1, pending := None), lines);
            && (r.outcome.Ok? <==> run.Ok?)
            && (r.outcome.Ok? ==> && r.outcome.value.stats == run.value.stats
                                  && r.outcome.value.warnings == run.value.warnings
                                  && (!cfg.dryRun ==> r.store == run.value.store))
  {
    var run := ProcessLines(cfg, pr, l.(linenum := 1, pending := None), lines);
    if run.Err? then QuotedLine(1, lines, run.error); Conclude(cfg, l, run)
    else Conclude(cfg, l, run)
  }

  /** `text` is the line numbered `n` when `lines` follow line `linenum`. */
  predicate Quotes(linenum: int, lines: seq<string>, n: int, text: string) {
    linenum + 1 <= n <= linenum + |lines| && text == lines[n - linenum - 1]
  }

  /** A failure whose line number is that of the `k`-th line quotes it. */
  lemma QuotedLine(linenum: int, lines: seq<string>, e: (LineFailure, string))
    requires exists k :: 0 <= k < |lines| && e.0.line == linenum + k + 1 && e.1 == lines[k]
    ensures Quotes(linenum, lines, e.0.line, e.1)
  {
  }

  /** The end of `process_file`: the report, or the error as it escapes. */
  function Conclude(cfg: Config, l: Loader, run: Result<Loader, (LineFailure, string)>): (r: FileResult)
    // a failed run rolls back, and only a `UserDataError` escapes unwrapped
    ensures r.outcome.Ok? <==> run.Ok?
    ensures r.outcome.Err? || cfg.dryRun ==> r.store == l.store
    ensures run.Err? ==> (r.outcome.error.UserData? <==> run.error.0.kind == UserDataError)
    ensures run.Err? ==> r.outcome.error.cause == run.error.0
    ensures run.Err? && r.outcome.error.Runtime? ==> r.outcome.error.line == run.error.1
    // the report carries the loop's tallies and the loader's flags
    ensures run.Ok? ==> && r.outcome.value.count == run.value.count
                        && r.outcome.value.stats == run.value.stats
                        && r.outcome.value.ignored == run.value.ignored
                        && r.outcome.value.warnings == run.value.warnings
                        && r.outcome.value.dryRun == cfg.dryRun
                        && r.outcome.value.overwrite == cfg.canOverwrite
                        && (!cfg.dryRun ==> r.store == run.value.store)
  {
    match run
    case Err((f, text)) =>
      if f.kind == UserDataError then FileResult(Err(UserData(f)), l.store)
      else FileResult(Err(Runtime(text, f)), l.store)
    case Ok(done) =>
      // the pending warning is not emitted
      var rep := Report(done.count, done.stats, done.ignored, done.warnings, cfg.dryRun, cfg.canOverwrite);
      FileResult(Ok(rep), if cfg.dryRun then l.store else done.store)
  }

  /** `dry_run` changes only the report's flag and whether the store is kept. */
  lemma ConcludeDryRun(cfg: Config, l: Loader, run: Result<Loader, (LineFailure, string)>)
    ensures var wet := Conclude(cfg.(dryRun := false), l, run);
            var dry := Conclude(cfg.(dryRun := true), l, run);
            && dry.store == l.store
            && (dry.outcome.Ok? <==> wet.outcome.Ok?)
            && (dry.outcome.Ok? ==> dry.outcome.value == wet.outcome.value.(dryRun := true))
            && (dry.outcome.Err? ==> dry.outcome == wet.outcome)
  {
  }

  /** `load_file(file)`: the header line, stripped and split (its fields are
      not stripped individually), names the columns. */
  function LoadFile(cfg: Config, pr: ProcessRow, st: Store, header: string, lines: seq<string>): (r: FileResult)
    ensures r.outcome.Err? || cfg.dryRun ==> r.store == st
    ensures r.outcome.Ok? ==> r.outcome.value.count == |lines|
    ensures r.outcome.Ok? ==> r.outcome.value.ignored == Ignored(cfg.table, Split(Strip(header), cfg.sep))
    ensures r.outcome.Ok? ==>
              forall x :: x in r.outcome.value.ignored <==> x in Split(Strip(header), cfg.sep) && Lookup(cfg.table, x).None?
    ensures var l := NewLoader(cfg, Split(Strip(header), cfg.sep), st);
            var run := ProcessLines(cfg, pr, l.(linenum := 1), lines);
            && (r.outcome.Ok? <==> run.Ok?)
            && (r.outcome.Ok? ==> r.outcome.value.stats == run.value.stats && r.outcome.value.warnings == run.value.warnings)
  {
    ProcessFile(cfg, pr, NewLoader(cfg, Split(Strip(header), cfg.sep), st), lines)
  }

  // ---------------------------------------------------------------------------
  // Properties of whole runs

  /** The same run with and without `dry_run` reports the same tallies and
      warnings; only the dry run leaves the store as it was. */
  lemma DryRunSameReport(cfg: Config, pr: ProcessRow, st: Store, header: string, lines: seq<string>)
    ensures var wet := LoadFile(cfg.(dryRun := false), pr, st, header, lines);
            var dry := LoadFile(cfg.(dryRun := true), pr, st, header, lines);
            && dry.store == st
            && (dry.outcome.Ok? <==> wet.outcome.Ok?)
            && (dry.outcome.Ok? ==> dry.outcome.value == wet.outcome.value.(dryRun := true))
            && (dry.outcome.Err? ==> dry.outcome == wet.outcome)
  {
    var l := NewLoader(cfg, Split(Strip(header), cfg.sep), st);
    assert NewLoader(cfg.(dryRun := false), Split(Strip(header), cfg.sep), st) == l;
    assert NewLoader(cfg.(dryRun := true), Split(Strip(header), cfg.sep), st) == l;
    assert LoadFile(cfg.(dryRun := false), pr, st, header, lines) == ProcessFile(cfg.(dryRun := false), pr, l, lines);
    assert LoadFile(cfg.(dryRun := true), pr, st, header, lines) == ProcessFile(cfg.(dryRun := true), pr, l, lines);
    ProcessFileIgnoresDryRun(cfg, pr, l, lines);
  }

  lemma ProcessFileIgnoresDryRun(cfg: Config, pr: ProcessRow, l: Loader, lines: seq<string>)
    ensures var wet := ProcessFile(cfg.(dryRun := false), pr, l, lines);
            var dry := ProcessFile(cfg.(dryRun := true), pr, l, lines);
            && dry.store == l.store
            && (dry.outcome.Ok? <==> wet.outcome.Ok?)
            && (dry.outcome.Ok? ==> dry.outcome.value == wet.outcome.value.(dryRun := true))
            && (dry.outcome.Err? ==> dry.outcome == wet.outcome)
  {
    var start := l.(linenum := 1, pending := None);
    ProcessLinesIgnoresDryRun(cfg, pr, start, lines);
    var run := ProcessLines(cfg.(dryRun := false), pr, start, lines);
    assert ProcessFile(cfg.(dryRun := false), pr, l, lines) == Conclude(cfg.(dryRun := false), l, run);
    assert ProcessFile(cfg.(dryRun := true), pr, l, lines) == Conclude(cfg.(dryRun := true), l, run);
    ConcludeDryRun(cfg, l, run);
  }

  lemma {:induction false} ProcessLinesIgnoresDryRun(cfg: Config, pr: ProcessRow, l: Loader, lines: seq<string>)
    ensures ProcessLines(cfg.(dryRun := true), pr, l, lines) == ProcessLines(cfg.(dryRun := false), pr, l, lines)
    decreases |lines|
  {
    if |lines| > 0 {
      var a := ProcessLine(cfg.(dryRun := true), pr, l, lines[0]);
      assert a == ProcessLine(cfg.(dryRun := false), pr, l, lines[0]);
      if a.Ok? {
        ProcessLinesIgnoresDryRun(cfg, pr, a.value, lines[1..]);
      }
    }
  }

  /** A row processor that raises the same user error on every row. */
  function AlwaysFails(msg: string): ProcessRow {
    (ctx: RowCtx, row: map<string, string>) => Step(ctx, Some(LoadError(UserDataError, msg)))
  }

  /** In warn mode, a file whose every data line fails with the same message
      is reported with every line counted and no warning at all: the single
      coalesced warning covering lines 2 to `|lines| + 1` is still pending when
      the run ends and is never emitted. */
  lemma AllRowsFailingNoWarnings(cfg: Config, msg: string, st: Store, header: string, lines: seq<string>)
    requires cfg.warnOnError
    ensures var r := LoadFile(cfg, AlwaysFails(msg), st, header, lines);
            && r.outcome.Ok?
            && r.outcome.value.count == |lines|
            && r.outcome.value.warnings == []
            && r.outcome.value.stats == NoStats
  {
    var l := NewLoader(cfg, Split(Strip(header), cfg.sep), st).(linenum := 1, pending := None);
    if |lines| > 0 {
      var l1 := l.(linenum := 2, count := 1, pending := Some(Pending("UserDataError", msg, 2, 2)));
      FailingLine(cfg, msg, l, lines[0]);
      ProcessLinesCons(cfg, AlwaysFails(msg), l, lines);
      FailingRunCoalesces(cfg, msg, l1, lines[1..]);
    }
  }

  /** One line under `AlwaysFails` in warn mode: counted and coalesced, with
      the counters and the store as they were. */
  lemma FailingLine(cfg: Config, msg: string, l: Loader, line: string)
    requires cfg.warnOnError
    ensures var c := Coalesce(l.warnings, l.pending, "UserDataError", msg, l.linenum + 1);
            ProcessLine(cfg, AlwaysFails(msg), l, line)
            == Ok(l.(linenum := l.linenum + 1, count := l.count + 1, warnings := c.0, pending := Some(c.1)))
  {
    var row := NormalizeRow(l.cols, cfg.table, cfg.missing, cfg.decodeBlank, line, cfg.sep);
    var ctx := RowCtx(l.stats, l.store, map[]);
    assert ProcessLine(cfg, AlwaysFails(msg), l, line) == Settle(cfg, l, row, AlwaysFails(msg)(ctx, row));
    assert AlwaysFails(msg)(ctx, row) == Step(ctx, Some(LoadError(UserDataError, msg)));
  }

  /** A line that does not escape hands the rest of the file to the loader it
      leaves; one that escapes ends the loop with its failure and its text. */
  lemma ProcessLinesCons(cfg: Config, pr: ProcessRow, l: Loader, lines: seq<string>)
    requires |lines| > 0
    ensures ProcessLine(cfg, pr, l, lines[0]).Ok? ==>
              ProcessLines(cfg, pr, l, lines) == ProcessLines(cfg, pr, ProcessLine(cfg, pr, l, lines[0]).value, lines[1..])
    ensures ProcessLine(cfg, pr, l, lines[0]).Err? ==>
              ProcessLines(cfg, pr, l, lines) == Err((ProcessLine(cfg, pr, l, lines[0]).error, lines[0]))
  {
  }

  /** Line `k` (from 0) is the first to escape: the lines before it run through,
      and line `k` fails on the loader they leave. */
  predicate EscapesAt(cfg: Config, pr: ProcessRow, l: Loader, lines: seq<string>, k: int) {
    && 0 <= k < |lines|
    && ProcessLines(cfg, pr, l, lines[..k]).Ok?
    && ProcessLine(cfg, pr, ProcessLines(cfg, pr, l, lines[..k]).value, lines[k]).Err?
  }

  /** The loop over `a + b` is the loop over `a`, then, unless a line of `a`
      escaped, the loop over `b` from where `a` left the loader. */
  lemma {:induction false} ProcessLinesAppend(cfg: Config, pr: ProcessRow, l: Loader, a: seq<string>, b: seq<string>)
    ensures var ra := ProcessLines(cfg, pr, l, a);
            ProcessLines(cfg, pr, l, a + b) == if ra.Err? then ra else ProcessLines(cfg, pr, ra.value, b)
    decreases |a|
  {
    if |a| == 0 {
      assert a + b == b;
    } else {
      var ab := a + b;
      assert ab[0] == a[0] && ab[1..] == a[1..] + b;
      ProcessLinesCons(cfg, pr, l, ab);
      ProcessLinesCons(cfg, pr, l, a);
      var s := ProcessLine(cfg, pr, l, a[0]);
      if s.Ok? {
        ProcessLinesAppend(cfg, pr, s.value, a[1..], b);
      }
    }
  }

  /** Lines `pre` run through and the next line escapes: the loop stops there. */
  lemma EscapeAfter(cfg: Config, pr: ProcessRow, l: Loader, pre: seq<string>, rest: seq<string>)
    requires |rest| > 0 && ProcessLines(cfg, pr, l, pre).Ok?
    requires ProcessLine(cfg, pr, ProcessLines(cfg, pr, l, pre).value, rest[0]).Err?
    ensures var f := ProcessLine(cfg, pr, ProcessLines(cfg, pr, l, pre).value, rest[0]).error;
            ProcessLines(cfg, pr, l, pre + rest) == Err((f, rest[0])) && f.line == l.linenum + |pre| + 1
  {
    ProcessLinesAppend(cfg, pr, l, pre, rest);
    ProcessLinesCons(cfg, pr, ProcessLines(cfg, pr, l, pre).value, rest);
  }

  /** The loop stops at the first escaping line: its failure, numbered
      `linenum + k + 1`, and its text are what escapes. */
  lemma FirstEscape(cfg: Config, pr: ProcessRow, l: Loader, lines: seq<string>, k: int)
    requires EscapesAt(cfg, pr, l, lines, k)
    ensures var f := ProcessLine(cfg, pr, ProcessLines(cfg, pr, l, lines[..k]).value, lines[k]).error;
            ProcessLines(cfg, pr, l, lines) == Err((f, lines[k])) && f.line == l.linenum + k + 1
  {
    SplitAt(lines, k);
    assert lines[k..][0] == lines[k];
    EscapeAfter(cfg, pr, l, lines[..k], lines[k..]);
  }

  /** A line that escapes from a prefix of the file escapes from the file. */
  lemma EscapesInPrefix(cfg: Config, pr: ProcessRow, l: Loader, lines: seq<string>, n: int, k: int)
    requires 0 <= n <= |lines| && EscapesAt(cfg, pr, l, lines[..n], k)
    ensures EscapesAt(cfg, pr, l, lines, k)
  {
    assert lines[..n][..k] == lines[..k] && lines[..n][k] == lines[k];
  }

  /** When the loop over all but the last line runs through and the whole
      loop fails, the last line escapes. */
  lemma EscapesLast(cfg: Config, pr: ProcessRow, l: Loader, lines: seq<string>)
    requires |lines| > 0 && ProcessLines(cfg, pr, l, lines).Err?
    requires ProcessLines(cfg, pr, l, lines[..|lines| - 1]).Ok?
    ensures EscapesAt(cfg, pr, l, lines, |lines| - 1)
  {
    var n := |lines| - 1;
    var last := lines[n..];
    SplitAt(lines, n);
    ProcessLinesAppend(cfg, pr, l, lines[..n], last);
    ProcessLinesCons(cfg, pr, ProcessLines(cfg, pr, l, lines[..n]).value, last);
    assert last[0] == lines[n];
  }

  /** A failed loop has an escaping line. */
  lemma {:induction false} FailureEscapes(cfg: Config, pr: ProcessRow, l: Loader, lines: seq<string>)
    requires ProcessLines(cfg, pr, l, lines).Err?
    ensures exists k :: EscapesAt(cfg, pr, l, lines, k)
    decreases |lines|
  {
    var n := |lines| - 1;
    if ProcessLines(cfg, pr, l, lines[..n]).Err? {
      FailureEscapes(cfg, pr, l, lines[..n]);
      var k :| EscapesAt(cfg, pr, l, lines[..n], k);
      EscapesInPrefix(cfg, pr, l, lines, n, k);
    } else {
      EscapesLast(cfg, pr, l, lines);
    }
  }

  /** The loop fails exactly when some line escapes. */
  lemma ProcessLinesFails(cfg: Config, pr: ProcessRow, l: Loader, lines: seq<string>)
    ensures ProcessLines(cfg, pr, l, lines).Err? <==> exists k :: EscapesAt(cfg, pr, l, lines, k)
  {
    if exists k :: EscapesAt(cfg, pr, l, lines, k) {
      var k :| EscapesAt(cfg, pr, l, lines, k);
      FirstEscape(cfg, pr, l, lines, k);
    }
    if ProcessLines(cfg, pr, l, lines).Err? {
      FailureEscapes(cfg, pr, l, lines);
    }
  }

  /** `process_file` fails exactly when a line escapes, and then with the first
      such line's failure: line number `k + 2` after the header, and, wrapped
      in a `RuntimeError`, that line's text. */
  lemma ProcessFileFails(cfg: Config, pr: ProcessRow, l: Loader, lines: seq<string>, k: int)
    ensures ProcessFile(cfg, pr, l, lines).outcome.Err? <==>
              exists j :: EscapesAt(cfg, pr, l.(linenum := 1, pending := None), lines, j)
    ensures EscapesAt(cfg, pr, l.(linenum := 1, pending := None), lines, k) ==>
              var start := l.(linenum := 1, pending := None);
              var f := ProcessLine(cfg, pr, ProcessLines(cfg, pr, start, lines[..k]).value, lines[k]).error;
              var e := ProcessFile(cfg, pr, l, lines).outcome;
              && e.Err? && e.error.cause == f && f.line == k + 2
              && (e.error.UserData? <==> f.kind == UserDataError)
              && (e.error.Runtime? ==> e.error.line == lines[k])
  {
    var start := l.(linenum := 1, pending := None);
    ProcessLinesFails(cfg, pr, start, lines);
    if EscapesAt(cfg, pr, start, lines, k) {
      FirstEscape(cfg, pr, start, lines, k);
    }
  }

  /** The loader after `k` more lines that failed with the pending warning's
      message: the lines are counted and the warning reaches the last of them. */
  function Extended(l: Loader, k: nat): Loader
    requires l.pending.Some?
  {
    l.(linenum := l.linenum + k, count := l.count + k, pending := Some(l.pending.value.(last := l.linenum + k)))
  }

  lemma ExtendedStep(l: Loader, k: nat)
    requires l.pending.Some?
    ensures Extended(Extended(l, 1), k) == Extended(l, k + 1)
  {
  }

  /** One more failing line with the same message extends the pending warning
      by that line. */
  lemma FailingNext(cfg: Config, msg: string, l: Loader, lines: seq<string>)
    requires cfg.warnOnError && |lines| > 0
    requires l.pending.Some? && l.pending.value.msg == msg && l.pending.value.last == l.linenum
    ensures ProcessLines(cfg, AlwaysFails(msg), l, lines)
            == ProcessLines(cfg, AlwaysFails(msg), Extended(l, 1), lines[1..])
  {
    var p := l.pending.value;
    FailingLine(cfg, msg, l, lines[0]);
    assert Coalesce(l.warnings, l.pending, "UserDataError", msg, l.linenum + 1) == (l.warnings, p.(last := l.linenum + 1));
    ProcessLinesCons(cfg, AlwaysFails(msg), l, lines);
  }

  /** The inductive step: while the same message keeps failing on consecutive
      lines the pending warning is extended and nothing else changes but the
      line number and the count. */
  lemma {:induction false} FailingRunCoalesces(cfg: Config, msg: string, l: Loader, lines: seq<string>)
    requires cfg.warnOnError
    requires l.pending.Some? && l.pending.value.msg == msg && l.pending.value.last == l.linenum
    ensures ProcessLines(cfg, AlwaysFails(msg), l, lines) == Ok(Extended(l, |lines|))
    decreases |lines|
  {
    if |lines| > 0 {
      var l1 := Extended(l, 1);
      assert l1.pending.Some? && l1.pending.value.msg == msg && l1.pending.value.last == l1.linenum;
      FailingNext(cfg, msg, l, lines);
      FailingRunCoalesces(cfg, msg, l1, lines[1..]);
      ExtendedStep(l, |lines| - 1);
    } else {
      assert Extended(l, 0) == l;
    }
  }

  /** A row processor that never fails only ever adds rows: no warning appears
      and the pending one stays as it is. */
  lemma {:induction false} CleanRunNoWarnings(cfg: Config, pr: ProcessRow, l: Loader, lines: seq<string>)
    requires forall ctx, row :: pr(ctx, row).err.None?
    ensures var r := ProcessLines(cfg, pr, l, lines);
            r.Ok? && r.value.warnings == l.warnings && r.value.pending == l.pending
    decreases |lines|
  {
    if |lines| > 0 {
      var r := ProcessLine(cfg, pr, l, lines[0]);
      CleanRunNoWarnings(cfg, pr, r.value, lines[1..]);
    }
  }
}
