/** `Client.Write`: one transaction that COPYs every sample, as a line of text,
    into a copy table, folds the temporary table into the normalised tables when
    the copy went there, and commits. The database is seen only through the
    statements the client sends it and the error, if any, each one returns. */
module Writer {
  import opened Outcomes
  import opened Text
  import opened Timestamps
  import Labels
  import Reader

  /** The part of `Config` that `Write` reads: the table prefix, the
      `-pg-copy-table` override and `-pg-prometheus-normalized-schema`. */
  datatype Config = Config(table: string, copyTable: string, normalize: bool)

  /** `model.Sample`: a metric (label name to value), a `float64` value and a
      millisecond timestamp. */
  datatype Sample = Sample(metric: map<string, string>, value: Reader.Float, timestamp: int)

  /** The `fmt` verbs the sample line uses: `%q` for a label value, and `%v` for
      a `float64` and for an `int64`. */
  datatype Formats = Formats(quote: string -> string, float: Reader.Float -> string, decimal: int -> string)

  /** A call the client makes on the database during `Write`. `Rollback` is the
      deferred `tx.Rollback()`; after a commit `database/sql` answers it
      without reaching the server. */
  datatype Action =
    | Begin
    | CreateTmpTable
    | PrepareCopy(target: string)
    | CopyLine(line: string)
    | CopyFlush
    | PrepareLabels(table: string)
    | ExecLabels
    | PrepareValues(table: string)
    | ExecValues
    | CloseLabels
    | CloseValues
    | CloseCopy
    | Commit
    | Rollback

  /** The database connection: every call is appended to `log`, and the driver
      answers the call at position `i` of the log with `respond(i, action)`,
      `None` for success. */
  class Database {
    var log: seq<Action>
    const respond: (nat, Action) -> Option<Error>

    constructor(respond: (nat, Action) -> Option<Error>)
      ensures log == [] && this.respond == respond
    {
      log := [];
      this.respond := respond;
    }

    method Perform(a: Action) returns (err: Option<Error>)
      modifies this
      ensures log == old(log) + [a]
      ensures err == respond(|old(log)|, a)
    {
      err := respond(|log|, a);
      log := log + [a];
    }
  }

  /** The table the samples are copied into. */
  function CopyTarget(cfg: Config): string
  {
    if |cfg.copyTable| > 0 then cfg.copyTable
    else if cfg.normalize then cfg.table + "_tmp"
    else cfg.table + "_samples"
  }

  /** The copy went to the temporary table, so it is folded into the
      normalised tables before the commit. */
  predicate Folds(cfg: Config)
  {
    CopyTarget(cfg) == cfg.table + "_tmp"
  }

  /** The target is never empty; an override wins; without one the normalised
      schema copies into `<table>_tmp` and the flat one into `<table>_samples`.
      The fold runs exactly when the copy lands in `<table>_tmp`, whether by
      default or because the override names that table. */
  lemma CopyTargetRule(cfg: Config)
    ensures CopyTarget(cfg) != ""
    ensures cfg.copyTable != "" ==> CopyTarget(cfg) == cfg.copyTable
    ensures cfg.copyTable == "" && !cfg.normalize ==> CopyTarget(cfg) == cfg.table + "_samples" && !Folds(cfg)
    ensures Folds(cfg) <==> (cfg.copyTable == "" && cfg.normalize) || cfg.copyTable == cfg.table + "_tmp"
  {
    if cfg.copyTable == "" && !cfg.normalize {
      assert |cfg.table + "_samples"| != |cfg.table + "_tmp"|;
    }
  }

  /** The line COPY receives for a sample: the metric string, the value and the
      timestamp in milliseconds, separated by single spaces. */
  ghost function LineText(s: Sample, f: Formats): string
  {
    Labels.MetricText(s.metric, f.quote) + " " + f.float(s.value) + " "
    + f.decimal(Quot(TimeUnixNano(s.timestamp), NanosPerMilli))
  }

  /** Within the `int64` range of nanoseconds the line carries the sample's own
      timestamp. */
  lemma LineCarriesTimestamp(s: Sample, f: Formats)
    requires IsInt64(s.timestamp * NanosPerMilli)
    ensures LineText(s, f) == Labels.MetricText(s.metric, f.quote) + " " + f.float(s.value) + " " + f.decimal(s.timestamp)
  {
    WriteMillisExact(s.timestamp);
  }

  /** The line for one sample, built with `metricString`. */
  method Line(s: Sample, f: Formats) returns (line: string)
    ensures line == LineText(s, f)
  {
    var metric := Labels.MetricString(s.metric, f.quote);
    var milliseconds := Quot(TimeUnixNano(s.timestamp), NanosPerMilli);
    line := metric + " " + f.float(s.value) + " " + f.decimal(milliseconds);
  }

  /** The lines of a batch of samples, in the batch's order. */
  ghost function Lines(samples: seq<Sample>, f: Formats): (lines: seq<string>)
    ensures |lines| == |samples|
    ensures forall i :: 0 <= i < |samples| ==> lines[i] == LineText(samples[i], f)
  {
    MapSeq((s: Sample) => LineText(s, f), samples)
  }

  function CopyLines(lines: seq<string>): seq<Action>
  {
    MapSeq((l: string) => CopyLine(l), lines)
  }

  /** The statements that move the temporary table into the labels and values
      tables, when the copy went to the temporary table. */
  function FoldSteps(cfg: Config): seq<Action>
  {
    if Folds(cfg) then
      [PrepareLabels(cfg.table), ExecLabels,
       PrepareValues(cfg.table), ExecValues,
       CloseLabels, CloseValues]
    else []
  }

  /** Everything `Write` asks of an open transaction, in order, when every step
      succeeds. */
  function Plan(cfg: Config, lines: seq<string>): seq<Action>
  {
    [CreateTmpTable, PrepareCopy(CopyTarget(cfg))] + CopyLines(lines)
    + [CopyFlush] + FoldSteps(cfg) + [CloseCopy, Commit]
  }

  /** Runs `plan` from log position `at` and stops at the first step the driver
      fails: the steps performed and the error returned. */
  function RunPlan(respond: (nat, Action) -> Option<Error>, at: nat, plan: seq<Action>): (seq<Action>, Option<Error>)
    decreases |plan|
  {
    if plan == [] then ([], None)
    else
      var e := respond(at, plan[0]);
      if e.Some? then ([plan[0]], e)
      else
        var rest := RunPlan(respond, at + 1, plan[1..]);
        ([plan[0]] + rest.0, rest.1)
  }

  /** The first `k` steps of `plan` succeed when run from position `at`. */
  ghost predicate Succeeded(respond: (nat, Action) -> Option<Error>, at: nat, plan: seq<Action>, k: nat)
  {
    k <= |plan| && forall i :: 0 <= i < k ==> respond(at + i, plan[i]).None?
  }

  /** What `Write` does with `plan`, from log position `at`: the calls it makes
      and the error it returns. A failed `Begin` ends it at once; otherwise the
      plan runs until its first failure and the deferred rollback follows. */
  function Outcome(respond: (nat, Action) -> Option<Error>, at: nat, plan: seq<Action>): (seq<Action>, Option<Error>)
  {
    var e := respond(at, Begin);
    if e.Some? then ([Begin], e)
    else
      var run := RunPlan(respond, at + 1, plan);
      ([Begin] + run.0 + [Rollback], run.1)
  }

  /** The run stops exactly at the first failure: what was performed is a
      non-empty prefix of the plan, every step in it but the last succeeded,
      the error returned is that of the last step, and no error is returned
      if and only if the whole plan ran and every step succeeded. */
  lemma {:induction false} RunPlanStopsAtFirstFailure(respond: (nat, Action) -> Option<Error>, at: nat, plan: seq<Action>)
    ensures var (done, err) := RunPlan(respond, at, plan);
      && done <= plan
      && (plan != [] ==> done != [] && Succeeded(respond, at, plan, |done| - 1))
      && (err.Some? ==> err == respond(at + |done| - 1, done[|done| - 1]))
      && (err.None? <==> done == plan && Succeeded(respond, at, plan, |plan|))
    decreases |plan|
  {
    if plan != [] && respond(at, plan[0]).None? {
      RunPlanStopsAtFirstFailure(respond, at + 1, plan[1..]);
      var (done, err) := RunPlan(respond, at + 1, plan[1..]);
      assert [plan[0]] + plan[1..] == plan;
      if err.None? && done == plan[1..] {
        assert forall i :: 0 <= i < |plan| ==> respond(at + i, plan[i]).None? by {
          forall i | 0 <= i < |plan|
            ensures respond(at + i, plan[i]).None?
          {
            if i > 0 {
              assert plan[i] == plan[1..][i - 1];
            }
          }
        }
      }
    }
  }

  /** A run whose first `k` steps succeed and whose step `k` fails performs
      exactly those `k + 1` steps and returns that step's error. */
  lemma {:induction false} RunPlanFailsAt(respond: (nat, Action) -> Option<Error>, at: nat, plan: seq<Action>, k: nat)
    requires k < |plan| && Succeeded(respond, at, plan, k) && respond(at + k, plan[k]).Some?
    ensures RunPlan(respond, at, plan) == (plan[..k + 1], respond(at + k, plan[k]))
    decreases k
  {
    if k > 0 {
      assert respond(at, plan[0]).None?;
      assert Succeeded(respond, at + 1, plan[1..], k - 1) by {
        forall i | 0 <= i < k - 1
          ensures respond(at + 1 + i, plan[1..][i]).None?
        {
          assert respond(at + (i + 1), plan[i + 1]).None?;
        }
      }
      RunPlanFailsAt(respond, at + 1, plan[1..], k - 1);
      assert [plan[0]] + plan[1..][..k] == plan[..k + 1];
    } else {
      assert plan[..1] == [plan[0]];
    }
  }

  /** A run whose every step succeeds performs the whole plan and returns no
      error. */
  lemma {:induction false} RunPlanSucceeds(respond: (nat, Action) -> Option<Error>, at: nat, plan: seq<Action>)
    requires Succeeded(respond, at, plan, |plan|)
    ensures RunPlan(respond, at, plan) == (plan, None)
    decreases |plan|
  {
    if plan != [] {
      assert respond(at, plan[0]).None?;
      assert Succeeded(respond, at + 1, plan[1..], |plan| - 1) by {
        forall i | 0 <= i < |plan| - 1
          ensures respond(at + 1 + i, plan[1..][i]).None?
        {
          assert respond(at + (i + 1), plan[i + 1]).None?;
        }
      }
      RunPlanSucceeds(respond, at + 1, plan[1..]);
      assert [plan[0]] + plan[1..] == plan;
    }
  }

  /** Where each step sits in the plan: the temporary table, the COPY prepare,
      one line per sample in the samples' order, the flush, the fold when there
      is one, then the COPY close and the commit. */
  lemma PlanShape(cfg: Config, lines: seq<string>)
    ensures var plan := Plan(cfg, lines);
      && |plan| == |lines| + 5 + |FoldSteps(cfg)|
      && plan[0] == CreateTmpTable
      && plan[1] == PrepareCopy(CopyTarget(cfg))
      && (forall i :: 0 <= i < |lines| ==> plan[2 + i] == CopyLine(lines[i]))
      && plan[2 + |lines|] == CopyFlush
      && (Folds(cfg) ==>
            && plan[3 + |lines|] == PrepareLabels(cfg.table) && plan[4 + |lines|] == ExecLabels
            && plan[5 + |lines|] == PrepareValues(cfg.table) && plan[6 + |lines|] == ExecValues
            && plan[7 + |lines|] == CloseLabels && plan[8 + |lines|] == CloseValues)
      && plan[|plan| - 2] == CloseCopy
      && plan[|plan| - 1] == Commit
  {
    var copies := CopyLines(lines);
    var plan := Plan(cfg, lines);
    var head := [CreateTmpTable, PrepareCopy(CopyTarget(cfg))] + copies + [CopyFlush];
    assert plan == head + FoldSteps(cfg) + [CloseCopy, Commit];
    forall i | 0 <= i < |lines|
      ensures plan[2 + i] == CopyLine(lines[i])
    {
      assert plan[2 + i] == head[2 + i] == copies[i];
    }
    forall j | 0 <= j < |FoldSteps(cfg)|
      ensures plan[|head| + j] == FoldSteps(cfg)[j]
    {
      assert plan[|head| + j] == (head + FoldSteps(cfg))[|head| + j];
    }
  }

  /** `plan` ends in its only commit and never rolls back. */
  ghost predicate CommitsLast(plan: seq<Action>)
  {
    && plan != [] && plan[|plan| - 1] == Commit
    && (forall i :: 0 <= i < |plan| - 1 ==> plan[i] != Commit)
    && Rollback !in plan
  }

  /** The plan's COPY lines are the samples' lines, one per sample, in order. */
  lemma PlanCopiesSamples(cfg: Config, f: Formats, samples: seq<Sample>)
    ensures var plan := Plan(cfg, Lines(samples, f));
      2 + |samples| <= |plan|
      && forall i :: 0 <= i < |samples| ==> plan[2 + i] == CopyLine(LineText(samples[i], f))
  {
    var lines := Lines(samples, f);
    PlanShape(cfg, lines);
    forall i | 0 <= i < |samples|
      ensures Plan(cfg, lines)[2 + i] == CopyLine(LineText(samples[i], f))
    {
      assert Plan(cfg, lines)[2 + i] == CopyLine(lines[i]);
    }
  }

  /** The commit is the plan's last step and appears nowhere else, and the plan
      never rolls back on its own. */
  lemma CommitOnlyLast(cfg: Config, lines: seq<string>)
    ensures CommitsLast(Plan(cfg, lines))
  {
    var copies := CopyLines(lines);
    var plan := Plan(cfg, lines);
    var body := [CreateTmpTable, PrepareCopy(CopyTarget(cfg))] + copies + [CopyFlush] + FoldSteps(cfg) + [CloseCopy];
    assert plan == body + [Commit];
    assert forall a :: a in copies ==> a.CopyLine?;
    assert Commit !in body && Rollback !in body;
    forall i | 0 <= i < |plan| - 1
      ensures plan[i] != Commit
    {
      assert plan[i] == body[i];
    }
  }

  /** For a plan that ends in its only commit, such as `Write`'s: the
      transaction commits with no error returned exactly when `Begin` and every
      step of the plan succeed, and an error is returned whenever any of them
      fails. The deferred rollback runs, last, exactly when `Begin` succeeded;
      and whenever the commit is reached, every earlier step succeeded. */
  lemma WriteCommitsIffAllSucceed(respond: (nat, Action) -> Option<Error>, at: nat, plan: seq<Action>)
    requires CommitsLast(plan)
    ensures var (calls, err) := Outcome(respond, at, plan);
      && (err.None? <==>
            respond(at, Begin).None? && Succeeded(respond, at + 1, plan, |plan|)
            && calls == [Begin] + plan + [Rollback])
      && (Rollback in calls <==> respond(at, Begin).None?)
      && (Rollback in calls ==> calls[|calls| - 1] == Rollback)
      && (Commit in calls ==> Succeeded(respond, at + 1, plan, |plan| - 1))
  {
    if respond(at, Begin).None? {
      RunPlanStopsAtFirstFailure(respond, at + 1, plan);
      var (done, err) := RunPlan(respond, at + 1, plan);
      var calls := [Begin] + done + [Rollback];
      assert Rollback !in done;
      if Commit in calls {
        var i :| 0 <= i < |done| && done[i] == Commit;
        assert done[i] == plan[i];
        assert i == |plan| - 1;
      }
    }
  }

  /** A transaction that started with `before` in the log has performed the
      first `k` steps of `plan`, each successfully, and the log is now `log`. */
  ghost predicate Ongoing(respond: (nat, Action) -> Option<Error>, before: seq<Action>, plan: seq<Action>, log: seq<Action>, k: nat)
  {
    k <= |plan| && log == before + plan[..k] && Succeeded(respond, |before|, plan, k)
  }

  /** The log and the error are those of running `plan` after `before`. */
  ghost predicate Returned(respond: (nat, Action) -> Option<Error>, before: seq<Action>, plan: seq<Action>, log: seq<Action>, err: Option<Error>)
  {
    var run := RunPlan(respond, |before|, plan);
    log == before + run.0 && err == run.1
  }

  /** One step of the plan: performs `a`, which is step `k`, on a transaction
      whose first `k` steps succeeded. */
  method Step(db: Database, a: Action, ghost before: seq<Action>, ghost plan: seq<Action>, ghost k: nat) returns (err: Option<Error>)
    requires k < |plan| && plan[k] == a
    requires Ongoing(db.respond, before, plan, db.log, k)
    modifies db
    ensures err.None? ==> Ongoing(db.respond, before, plan, db.log, k + 1)
    ensures err.Some? ==> Returned(db.respond, before, plan, db.log, err)
  {
    err := db.Perform(a);
    assert plan[..k + 1] == plan[..k] + [a];
    if err.Some? {
      RunPlanFailsAt(db.respond, |before|, plan, k);
    }
  }

  /** The start of the transaction: the temporary table, then the choice of
      the copy table and the COPY prepare, returning on the first error. */
  method StartCopy(db: Database, cfg: Config, ghost before: seq<Action>, ghost plan: seq<Action>) returns (err: Option<Error>, copyTable: string)
    requires 2 <= |plan| && plan[0] == CreateTmpTable && plan[1] == PrepareCopy(CopyTarget(cfg))
    requires Ongoing(db.respond, before, plan, db.log, 0)
    modifies db
    ensures copyTable == CopyTarget(cfg)
    ensures err.None? ==> Ongoing(db.respond, before, plan, db.log, 2)
    ensures err.Some? ==> Returned(db.respond, before, plan, db.log, err)
  {
    copyTable := CopyTarget(cfg);
    err := Step(db, CreateTmpTable, before, plan, 0);
    if err.Some? { return; }
    if |cfg.copyTable| > 0 {
      copyTable := cfg.copyTable;
    } else if cfg.normalize {
      copyTable := cfg.table + "_tmp";
    } else {
      copyTable := cfg.table + "_samples";
    }
    err := Step(db, PrepareCopy(copyTable), before, plan, 1);
  }

  /** The loop over the samples: one COPY line each, in order, returning on the
      first error. */
  method CopySamples(db: Database, f: Formats, samples: seq<Sample>, ghost before: seq<Action>, ghost plan: seq<Action>) returns (err: Option<Error>)
    requires 2 + |samples| <= |plan|
    requires forall i :: 0 <= i < |samples| ==> plan[2 + i] == CopyLine(LineText(samples[i], f))
    requires Ongoing(db.respond, before, plan, db.log, 2)
    modifies db
    ensures err.None? ==> Ongoing(db.respond, before, plan, db.log, 2 + |samples|)
    ensures err.Some? ==> Returned(db.respond, before, plan, db.log, err)
  {
    err := None;
    for i := 0 to |samples|
      invariant err.None? && Ongoing(db.respond, before, plan, db.log, 2 + i)
    {
      var line := Line(samples[i], f);
      err := Step(db, CopyLine(line), before, plan, 2 + i);
      if err.Some? { return; }
    }
  }

  /** The fold of the temporary table into the labels and values tables:
      prepare and run each insert, then close both statements, returning on the
      first error. */
  method FoldTemporary(db: Database, table: string, ghost before: seq<Action>, ghost plan: seq<Action>, ghost k: nat) returns (err: Option<Error>)
    requires k + 6 <= |plan|
    requires plan[k] == PrepareLabels(table) && plan[k + 1] == ExecLabels
    requires plan[k + 2] == PrepareValues(table) && plan[k + 3] == ExecValues
    requires plan[k + 4] == CloseLabels && plan[k + 5] == CloseValues
    requires Ongoing(db.respond, before, plan, db.log, k)
    modifies db
    ensures err.None? ==> Ongoing(db.respond, before, plan, db.log, k + 6)
    ensures err.Some? ==> Returned(db.respond, before, plan, db.log, err)
  {
    err := Step(db, PrepareLabels(table), before, plan, k);
    if err.Some? { return; }
    err := Step(db, ExecLabels, before, plan, k + 1);
    if err.Some? { return; }
    err := Step(db, PrepareValues(table), before, plan, k + 2);
    if err.Some? { return; }
    err := Step(db, ExecValues, before, plan, k + 3);
    if err.Some? { return; }
    err := Step(db, CloseLabels, before, plan, k + 4);
    if err.Some? { return; }
    err := Step(db, CloseValues, before, plan, k + 5);
  }

  /** The end of the transaction, after the lines: the flush, the fold when the
      copy went to `<table>_tmp`, the COPY close and the commit, returning on
      the first error. */
  method FinishCopy(db: Database, cfg: Config, copyTable: string, ghost n: nat, ghost before: seq<Action>, ghost plan: seq<Action>) returns (err: Option<Error>)
    requires copyTable == CopyTarget(cfg)
    requires |plan| == n + 5 + |FoldSteps(cfg)| && plan[2 + n] == CopyFlush
    requires Folds(cfg) ==>
      && plan[3 + n] == PrepareLabels(cfg.table) && plan[4 + n] == ExecLabels
      && plan[5 + n] == PrepareValues(cfg.table) && plan[6 + n] == ExecValues
      && plan[7 + n] == CloseLabels && plan[8 + n] == CloseValues
    requires plan[|plan| - 2] == CloseCopy && plan[|plan| - 1] == Commit
    requires Ongoing(db.respond, before, plan, db.log, 2 + n)
    modifies db
    ensures Returned(db.respond, before, plan, db.log, err)
  {
    err := Step(db, CopyFlush, before, plan, 2 + n);
    if err.Some? { return; }
    ghost var k := 3 + n;
    if copyTable == cfg.table + "_tmp" {
      err := FoldTemporary(db, cfg.table, before, plan, k);
      if err.Some? { return; }
      k := k + 6;
    }
    err := Step(db, CloseCopy, before, plan, k);
    if err.Some? { return; }
    err := Step(db, Commit, before, plan, k + 1);
    if err.Some? { return; }
    assert plan[..k + 2] == plan;
    RunPlanSucceeds(db.respond, |before|, plan);
  }

  /** The body of `Write` between the deferred rollback and the return: the
      plan, run with a return on the first error. */
  method Transaction(db: Database, cfg: Config, f: Formats, samples: seq<Sample>) returns (err: Option<Error>)
    modifies db
    ensures Returned(db.respond, old(db.log), Plan(cfg, Lines(samples, f)), db.log, err)
  {
    ghost var before := db.log;
    ghost var lines := Lines(samples, f);
    ghost var plan := Plan(cfg, lines);
    PlanShape(cfg, lines);
    assert db.log == before + plan[..0];
    var copyTable;
    err, copyTable := StartCopy(db, cfg, before, plan);
    if err.Some? { return; }
    PlanCopiesSamples(cfg, f, samples);
    err := CopySamples(db, f, samples, before, plan);
    if err.Some? { return; }
    err := FinishCopy(db, cfg, copyTable, |samples|, before, plan);
  }

  /** `Client.Write`: begins a transaction, runs the plan in it with a return on
      the first error, and rolls back on the way out once the transaction is
      open. */
  method Write(db: Database, cfg: Config, f: Formats, samples: seq<Sample>) returns (err: Option<Error>)
    modifies db
    ensures db.log == old(db.log) + Outcome(db.respond, |old(db.log)|, Plan(cfg, Lines(samples, f))).0
    ensures err == Outcome(db.respond, |old(db.log)|, Plan(cfg, Lines(samples, f))).1
  {
    err := db.Perform(Begin);
    if err.Some? { return; }
    err := Transaction(db, cfg, f, samples);
    var _ := db.Perform(Rollback);
  }
}
