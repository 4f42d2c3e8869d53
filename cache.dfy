/**
 * The second half of `ensure_icons`: deciding whether the icon cache is stale and, when it
 * is, regenerating every icon and recording the configuration's modification time.
 *
 * The cache directory is modelled as the set of paths that exist in it; the metadata file
 * `cache.json` as the stored modification time, None when the file is absent or not valid
 * JSON. The PowerShell converters are an oracle: what each run does is a parameter.
 */
module Cache {
  import opened Wrappers
  import opened Config
  import opened IconPolicy

  /** The three converters: `extract_icon_ico_from_exe`, `extract_icon_png_from_exe`, `convert_ico_to_png`. */
  datatype Op = ExtractIco | ExtractPng | ConvertIco

  datatype Job = Job(op: Op, source: string, output: string)

  /** What a converter run does, as far as the launcher can see: it never started, or it exited. */
  datatype RunOutcome = StartFailed | Exited(code: int, wroteOutput: bool)

  /** One step of a regeneration pass: whether removing the old output failed, and the run. */
  datatype Attempt = Attempt(unlinkFails: bool, run: RunOutcome)

  /** What writing `cache.json` does: it succeeds, fails before touching the file, or leaves it unreadable. */
  datatype WriteOutcome = Written | Unchanged | Corrupted

  /** What the store records, in order: removals, converter runs and metadata writes. */
  datatype Event = Deleted(path: string) | Converted(job: Job) | MetaSaved(mtime: int)

  /** `run_powershell_hidden`: the exit code of the script, 1 when it could not be started. */
  function ExitCode(o: RunOutcome): int {
    if o.StartFailed? then 1 else o.code
  }

  function Wrote(o: RunOutcome): bool {
    o.Exited? && o.wroteOutput
  }

  /** A converter reports success exactly when the script exited with 0 and the output exists afterwards. */
  predicate Succeeded(o: RunOutcome, outputExists: bool) {
    ExitCode(o) == 0 && outputExists
  }

  function WindowJob(w: WindowTarget): Job {
    Job(ExtractIco, w.source, w.output)
  }

  /** An `"exe"` target is extracted from the executable, an `"ico"` one converted. */
  function TargetJob(t: Target): Job {
    Job(if t.kind == FromExe then ExtractPng else ConvertIco, t.source, t.output)
  }

  /** The jobs of a regeneration pass: the window icon first, then every target in order. */
  function Jobs(win: Option<WindowTarget>, targets: seq<Target>): seq<Job> {
    (if win.Some? then [WindowJob(win.value)] else [])
    + seq(|targets|, i requires 0 <= i < |targets| => TargetJob(targets[i]))
  }

  /** What a pass records: for every job, the removal of its output and then one converter run. */
  function Trace(jobs: seq<Job>): seq<Event>
    decreases |jobs|
  {
    if jobs == [] then []
    else
      var n := |jobs| - 1;
      Trace(jobs[..n]) + [Deleted(jobs[n].output), Converted(jobs[n])]
  }

  /** The files after one attempt at producing `output`. */
  function AfterAttempt(files: set<string>, output: string, a: Attempt): set<string> {
    var kept := if a.unlinkFails then files else files - {output};
    if Wrote(a.run) then kept + {output} else kept
  }

  /** The files after the jobs of a pass, attempt `k` being the one for `jobs[k]`. */
  function FilesAfter(files: set<string>, jobs: seq<Job>, attempts: nat -> Attempt): set<string>
    decreases |jobs|
  {
    if jobs == [] then files
    else
      var n := |jobs| - 1;
      AfterAttempt(FilesAfter(files, jobs[..n], attempts), jobs[n].output, attempts(n))
  }

  /** The metadata after `save_cache_meta({"conf_mtime": now})`. */
  function MetaAfter(meta: Option<int>, now: int, w: WriteOutcome): Option<int> {
    match w
    case Written => Some(now)
    case Unchanged => meta
    case Corrupted => None
  }

  /** `prev_meta.get("conf_mtime", 0)`: missing or unreadable metadata counts as 0. */
  function StoredMtime(meta: Option<int>): int {
    meta.GetOr(0)
  }

  /** Every button image and the window icon, if one is needed, exist. */
  predicate AllPresent(files: set<string>, win: Option<WindowTarget>, targets: seq<Target>) {
    (forall i :: 0 <= i < |targets| ==> targets[i].output in files) &&
    (win.Some? ==> win.value.output in files)
  }

  /** The cache is stale when the configuration changed since the last pass or an icon is missing. */
  predicate NeedsRegen(files: set<string>, meta: Option<int>, now: int,
                       win: Option<WindowTarget>, targets: seq<Target>) {
    now != StoredMtime(meta) || !AllPresent(files, win, targets)
  }

  /** The cache directory and its metadata file. */
  class CacheStore {
    var files: set<string>
    var meta: Option<int>
    var log: seq<Event>

    constructor(files0: set<string>, meta0: Option<int>)
      ensures files == files0 && meta == meta0 && log == []
    {
      files := files0;
      meta := meta0;
      log := [];
    }

    /** `unlink(missing_ok=True)` with its exceptions swallowed: a missing file is fine, a failure keeps it. */
    method Delete(path: string, fails: bool)
      modifies this
      ensures files == if fails then old(files) else old(files) - {path}
      ensures meta == old(meta) && log == old(log) + [Deleted(path)]
    {
      if !fails {
        files := files - {path};
      }
      log := log + [Deleted(path)];
    }

    /**
     * One converter: the run may or may not write the output, and the converter reports
     * success exactly when the exit code is 0 and the output exists afterwards.
     */
    method Convert(job: Job, o: RunOutcome) returns (ok: bool)
      modifies this
      ensures files == if Wrote(o) then old(files) + {job.output} else old(files)
      ensures ok == Succeeded(o, job.output in files)
      ensures ok ==> job.output in files
      ensures o.StartFailed? ==> !ok
      ensures meta == old(meta) && log == old(log) + [Converted(job)]
    {
      if Wrote(o) {
        files := files + {job.output};
      }
      log := log + [Converted(job)];
      var code := ExitCode(o);
      ok := code == 0 && job.output in files;
    }

    /** `save_cache_meta`: its exceptions are swallowed, so a failed write only changes the file's state. */
    method SaveMeta(now: int, w: WriteOutcome)
      modifies this
      ensures meta == MetaAfter(old(meta), now, w)
      ensures files == old(files) && log == old(log) + [MetaSaved(now)]
    {
      match w {
        case Written => meta := Some(now);
        case Unchanged =>
        case Corrupted => meta := None;
      }
      log := log + [MetaSaved(now)];
    }

    /**
     * The staleness check: compare the modification times, then scan the targets for a
     * missing output, stopping at the first, then check the window icon.
     */
    method NeedsRegeneration(now: int, win: Option<WindowTarget>, targets: seq<Target>)
      returns (need: bool)
      ensures need == NeedsRegen(files, meta, now, win, targets)
    {
      need := now != meta.GetOr(0);
      if !need {
        var i := 0;
        while i < |targets|
          invariant 0 <= i <= |targets|
          invariant !need
          invariant forall j :: 0 <= j < i ==> targets[j].output in files
        {
          if targets[i].output !in files {
            need := true;
            break;
          }
          i := i + 1;
        }
        if win.Some? && win.value.output !in files {
          need := true;
        }
      }
    }

    /** One step of the pass: remove the job's output, then run its converter once, ignoring the result. */
    method Produce(job: Job, a: Attempt)
      modifies this
      ensures files == AfterAttempt(old(files), job.output, a)
      ensures meta == old(meta) && log == old(log) + [Deleted(job.output), Converted(job)]
    {
      Delete(job.output, a.unlinkFails);
      var ok := Convert(job, a.run);
    }

    /**
     * The jobs of a pass in order, each output removed and then converted once, whatever
     * earlier conversions reported.
     */
    method RunJobs(jobs: seq<Job>, attempts: nat -> Attempt)
      modifies this
      ensures files == FilesAfter(old(files), jobs, attempts)
      ensures meta == old(meta) && log == old(log) + Trace(jobs)
    {
      for k := 0 to |jobs|
        invariant files == FilesAfter(old(files), jobs[..k], attempts)
        invariant meta == old(meta)
        invariant log == old(log) + Trace(jobs[..k])
      {
        Produce(jobs[k], attempts(k));
        PassStep(old(files), jobs, attempts, k);
      }
      assert jobs[..|jobs|] == jobs;
    }

    /**
     * The regeneration pass: the window icon first, then every target in order; finally the
     * new modification time is saved, whatever the conversions reported.
     */
    method Regenerate(now: int, win: Option<WindowTarget>, targets: seq<Target>,
                      attempts: nat -> Attempt, w: WriteOutcome)
      modifies this
      ensures files == FilesAfter(old(files), Jobs(win, targets), attempts)
      ensures meta == MetaAfter(old(meta), now, w)
      ensures log == old(log) + Trace(Jobs(win, targets)) + [MetaSaved(now)]
    {
      var jobs := Jobs(win, targets);
      RunJobs(jobs, attempts);
      SaveMeta(now, w);
    }

    /**
     * `ensure_icons`: derive the targets, and regenerate when the cache is stale. A fresh cache
     * is left exactly as it was: nothing removed, nothing converted, no metadata written.
     */
    method EnsureIcons(l: Layout, windowIcon: string, apps: seq<AppRecord>, confMtime: Option<int>,
                       attempts: nat -> Attempt, w: WriteOutcome)
      returns (regenerated: bool)
      modifies this
      ensures var now := confMtime.GetOr(0);
        var win := WindowTargetOf(l, windowIcon);
        var targets := AppTargets(l, apps);
        regenerated == NeedsRegen(old(files), old(meta), now, win, targets) &&
        (!regenerated ==> files == old(files) && meta == old(meta) && log == old(log)) &&
        (regenerated ==>
          files == FilesAfter(old(files), Jobs(win, targets), attempts) &&
          meta == MetaAfter(old(meta), now, w) &&
          log == old(log) + Trace(Jobs(win, targets)) + [MetaSaved(now)])
    {
      var now := confMtime.GetOr(0);
      var win, targets := DeriveTargets(l, windowIcon, apps);
      regenerated := NeedsRegeneration(now, win, targets);
      if !regenerated {
        return;
      }
      Regenerate(now, win, targets, attempts, w);
    }
  }

  // ---- Properties of a regeneration pass ----

  /** The pass's jobs: the window job first, then one job per target, in order, with the matching converter. */
  lemma JobsShape(win: Option<WindowTarget>, targets: seq<Target>)
    ensures var jobs := Jobs(win, targets); var off := if win.Some? then 1 else 0;
      |jobs| == off + |targets| &&
      (win.Some? ==> jobs[0] == Job(ExtractIco, win.value.source, win.value.output)) &&
      (forall i :: 0 <= i < |targets| ==>
        jobs[off + i].source == targets[i].source && jobs[off + i].output == targets[i].output &&
        (jobs[off + i].op == ExtractPng <==> targets[i].kind == FromExe) &&
        (jobs[off + i].op == ConvertIco <==> targets[i].kind == FromIco))
  {
  }

  /** Taking one more job of a pass adds its attempt to the files and its two events to the trace. */
  lemma PassStep(files: set<string>, jobs: seq<Job>, attempts: nat -> Attempt, m: nat)
    requires m < |jobs|
    ensures FilesAfter(files, jobs[..m + 1], attempts) ==
      AfterAttempt(FilesAfter(files, jobs[..m], attempts), jobs[m].output, attempts(m))
    ensures Trace(jobs[..m + 1]) == Trace(jobs[..m]) + [Deleted(jobs[m].output), Converted(jobs[m])]
  {
    assert jobs[..m + 1][..m] == jobs[..m];
  }

  /** Every job's output is the window icon or the output of a target. */
  lemma JobOutputs(win: Option<WindowTarget>, targets: seq<Target>, k: nat)
    requires k < |Jobs(win, targets)|
    ensures (win.Some? && Jobs(win, targets)[k].output == win.value.output) ||
      exists i :: 0 <= i < |targets| && Jobs(win, targets)[k].output == targets[i].output
  {
    var off := if win.Some? then 1 else 0;
    if k >= off {
      assert Jobs(win, targets)[k] == TargetJob(targets[k - off]);
    }
  }

  /** A pass records, for each job in order, the removal of its output followed by exactly one conversion. */
  lemma {:induction false} TraceShape(jobs: seq<Job>)
    ensures |Trace(jobs)| == 2 * |jobs|
    ensures forall k :: 0 <= k < |jobs| ==>
      Trace(jobs)[2 * k] == Deleted(jobs[k].output) && Trace(jobs)[2 * k + 1] == Converted(jobs[k])
    decreases |jobs|
  {
    if jobs != [] {
      var n := |jobs| - 1;
      TraceShape(jobs[..n]);
      forall k | 0 <= k < n
        ensures Trace(jobs)[2 * k] == Deleted(jobs[k].output) && Trace(jobs)[2 * k + 1] == Converted(jobs[k])
      {
        assert jobs[k] == jobs[..n][k];
      }
    }
  }

  /** A path no job produces is exactly as present after the pass as before it. */
  lemma {:induction false} FilesAfterFrame(files: set<string>, jobs: seq<Job>, attempts: nat -> Attempt, p: string)
    requires forall k :: 0 <= k < |jobs| ==> jobs[k].output != p
    ensures p in FilesAfter(files, jobs, attempts) <==> p in files
    decreases |jobs|
  {
    if jobs != [] {
      var n := |jobs| - 1;
      assert forall k :: 0 <= k < n ==> jobs[..n][k] == jobs[k];
      FilesAfterFrame(files, jobs[..n], attempts, p);
    }
  }

  /**
   * The last job with a given output decides whether it exists after the pass: it does when
   * that run wrote it, or when the removal failed and it existed just before.
   */
  lemma {:induction false} LastAttemptDecides(files: set<string>, jobs: seq<Job>, attempts: nat -> Attempt, k: nat)
    requires k < |jobs|
    requires forall j :: k < j < |jobs| ==> jobs[j].output != jobs[k].output
    ensures var p := jobs[k].output;
      p in FilesAfter(files, jobs, attempts) <==>
        Wrote(attempts(k).run) || (attempts(k).unlinkFails && p in FilesAfter(files, jobs[..k], attempts))
    decreases |jobs|
  {
    var n := |jobs| - 1;
    if k < n {
      assert jobs[..n][k] == jobs[k];
      assert jobs[..n][..k] == jobs[..k];
      forall j | k < j < n ensures jobs[..n][j].output != jobs[k].output {
        assert jobs[..n][j] == jobs[j];
      }
      LastAttemptDecides(files, jobs[..n], attempts, k);
    }
  }

  /** When every run writes its output, every output exists after the pass. */
  lemma {:induction false} AllWrittenPresent(files: set<string>, jobs: seq<Job>, attempts: nat -> Attempt)
    requires forall k :: 0 <= k < |jobs| ==> Wrote(attempts(k).run)
    ensures forall k :: 0 <= k < |jobs| ==> jobs[k].output in FilesAfter(files, jobs, attempts)
    decreases |jobs|
  {
    if jobs != [] {
      var n := |jobs| - 1;
      AllWrittenPresent(files, jobs[..n], attempts);
      assert forall k :: 0 <= k < n ==> jobs[..n][k] == jobs[k];
    }
  }

  /**
   * After a pass in which every run wrote its output and the metadata was saved, the cache is
   * fresh: the next launch with an unchanged configuration does nothing.
   */
  lemma IdleAfterCompletePass(files: set<string>, meta: Option<int>, now: int,
                              win: Option<WindowTarget>, targets: seq<Target>, attempts: nat -> Attempt)
    requires forall k :: 0 <= k < |Jobs(win, targets)| ==> Wrote(attempts(k).run)
    ensures !NeedsRegen(FilesAfter(files, Jobs(win, targets), attempts), MetaAfter(meta, now, Written),
                        now, win, targets)
  {
    var jobs := Jobs(win, targets);
    var after := FilesAfter(files, jobs, attempts);
    AllWrittenPresent(files, jobs, attempts);
    JobsShape(win, targets);
    var off := if win.Some? then 1 else 0;
    forall i | 0 <= i < |targets| ensures targets[i].output in after {
      assert jobs[off + i].output == targets[i].output;
    }
  }

  /**
   * An output whose last run did not write it, and whose removal succeeded, is missing after
   * the pass, so the next launch regenerates whatever the metadata says.
   */
  lemma FailedOutputIsRetried(files: set<string>, win: Option<WindowTarget>, targets: seq<Target>,
                              attempts: nat -> Attempt, k: nat)
    requires k < |Jobs(win, targets)|
    requires forall j :: k < j < |Jobs(win, targets)| ==> Jobs(win, targets)[j].output != Jobs(win, targets)[k].output
    requires !Wrote(attempts(k).run) && !attempts(k).unlinkFails
    ensures Jobs(win, targets)[k].output !in FilesAfter(files, Jobs(win, targets), attempts)
    ensures forall meta: Option<int>, now: int ::
      NeedsRegen(FilesAfter(files, Jobs(win, targets), attempts), meta, now, win, targets)
  {
    var jobs := Jobs(win, targets);
    LastAttemptDecides(files, jobs, attempts, k);
    JobOutputs(win, targets, k);
  }
}
