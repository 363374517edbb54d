/** loaders/uproc_results/kegg/write_copy_uproc_kegg_results_to_iplant_job_file.py:
    one launcher job line per `.uproc.kegg` file of a directory tree, each
    making the iRODS collection for the file's directory and uploading the
    file into it. The tree is a walk given as input; the job file is the
    sequence of lines written. */
module KeggJobFile {
  import opened Wrappers
  import opened Strings
  import opened Paths
  import opened Walks

  predicate IsKeggName(name: string) {
    EndsWith(name, ".uproc.kegg")
  }

  /** The collection for the directory `root` as the script computes it:
      `os.path.join(irods_target_dir, root[len(fs_source_dir):])`. The
      remainder of a directory below the source starts with `/`, and `join`
      then drops the target (see `TargetDirAsWrittenDropsTarget`). */
  function TargetDirAsWritten(source: string, target: string, root: string): string {
    PathJoin(target, DropFirst(root, |source|))
  }

  /** For a directory below the source, the collection as written is the
      directory's path relative to the source, made absolute, and not a path
      under the target at all. */
  lemma TargetDirAsWrittenDropsTarget(source: string, target: string, rel: string)
    ensures TargetDirAsWritten(source, target, source + "/" + rel) == "/" + rel
  {
    assert DropFirst(source + "/" + rel, |source|) == "/" + rel;
    assert StartsWith("/" + rel, "/");
  }

  /** The collection the script's own comment describes, the target joined
      with the directory's path relative to the source (the source itself
      maps to the target). The job lines below keep the script's
      computation. */
  function TargetDir(source: string, target: string, root: string): string {
    var rest := DropFirst(root, |source|);
    var rel := if StartsWith(rest, "/") then rest[1..] else rest;
    if rel == "" then target else PathJoin(target, rel)
  }

  /** A directory below the source maps to the same relative path below the
      target, and the source to the target itself. */
  lemma TargetDirUnderTarget(source: string, target: string, rel: string)
    requires rel != "" && !StartsWith(rel, "/")
    ensures TargetDir(source, target, source + "/" + rel) == PathJoin(target, rel)
    ensures target != "" && !EndsWith(target, "/") ==>
      TargetDir(source, target, source + "/" + rel) == target + "/" + rel
    ensures TargetDir(source, target, source) == target
  {
    assert DropFirst(source + "/" + rel, |source|) == "/" + rel;
    assert ("/" + rel)[1..] == rel;
    assert DropFirst(source, |source|) == "";
  }

  /** One job: the collection to make, the local file and the data object
      to upload it to. */
  datatype Job = Job(collection: string, local: string, dataObject: string)

  /** The job for file `name` of directory `root`, with the collection as
      the script computes it. */
  function JobOf(source: string, target: string, root: string, name: string): Job {
    var dir := TargetDirAsWritten(source, target, root);
    Job(dir, PathJoin(root, name), PathJoin(dir, name))
  }

  /** The line written for a job. */
  function JobLine(j: Job): string {
    "imkdir " + j.collection + "; iput -K " + j.local + " " + j.dataObject + "\n"
  }

  /** The lines written for a run of jobs. */
  function JobLines(jobs: seq<Job>): (r: seq<string>)
    ensures |r| == |jobs| && forall i :: 0 <= i < |jobs| ==> r[i] == JobLine(jobs[i])
  {
    seq(|jobs|, i requires 0 <= i < |jobs| => JobLine(jobs[i]))
  }

  /** `args.job_limit and args.job_limit == job_count` */
  predicate LimitReached(limit: Option<int>, count: nat) {
    limit.Some? && limit.value != 0 && limit.value == count
  }

  /** The lines written for the files of one directory when `count` jobs
      were written before it: every `.uproc.kegg` file gets a line, until
      the count after a line equals the limit, which ends this directory
      only. */
  function DirJobs(source: string, target: string, root: string, files: seq<File>,
                   limit: Option<int>, count: nat): seq<Job>
    decreases |files|
  {
    if |files| == 0 then []
    else if !IsKeggName(files[0].name) then DirJobs(source, target, root, files[1..], limit, count)
    else
      [JobOf(source, target, root, files[0].name)]
      + (if LimitReached(limit, count + 1) then []
         else DirJobs(source, target, root, files[1..], limit, count + 1))
  }

  /** The lines written for a walk, directory after directory. */
  function WalkJobs(source: string, target: string, walk: seq<WalkDir>, limit: Option<int>, count: nat): seq<Job>
    decreases |walk|
  {
    if |walk| == 0 then []
    else
      var d := DirJobs(source, target, walk[0].root, walk[0].files, limit, count);
      d + WalkJobs(source, target, walk[1..], limit, count + |d|)
  }

  /** `write_job_file`: the lines of the job file and `job_count`. */
  method WriteJobFile(source: string, target: string, walk: seq<WalkDir>, limit: Option<int>)
    returns (lines: seq<string>, jobCount: nat)
    ensures lines == JobLines(WalkJobs(source, target, walk, limit, 0))
    ensures jobCount == |lines|
  {
    lines := [];
    jobCount := 0;
    ghost var jobs: seq<Job> := [];
    for i := 0 to |walk|
      invariant jobCount == |jobs| && lines == JobLines(jobs)
      invariant jobs + WalkJobs(source, target, walk[i..], limit, jobCount) == WalkJobs(source, target, walk, limit, 0)
    {
      var added;
      ghost var addedJobs;
      added, jobCount, addedJobs := DirectoryJobs(source, target, walk[i].root, walk[i].files, limit, jobCount);
      WalkJobsStep(source, target, walk, i, limit, jobs, addedJobs);
      JobLinesAppend(jobs, addedJobs);
      lines := lines + added;
      jobs := jobs + addedJobs;
    }
  }

  /** The inner loop of `write_job_file` over the files of one directory,
      starting from `count` jobs: the lines it writes, the new count and the
      jobs the lines stand for. The `break` on reaching the limit leaves this
      loop, so it is a return. */
  method DirectoryJobs(source: string, target: string, root: string, files: seq<File>,
                       limit: Option<int>, count: nat)
    returns (added: seq<string>, jobCount: nat, ghost jobs: seq<Job>)
    ensures jobs == DirJobs(source, target, root, files, limit, count)
    ensures added == JobLines(jobs)
    ensures jobCount == count + |added|
  {
    added := [];
    jobCount := count;
    jobs := [];
    var j := 0;
    while j < |files|
      invariant j <= |files| && jobCount == count + |jobs| && added == JobLines(jobs)
      invariant jobs + DirJobs(source, target, root, files[j..], limit, jobCount)
        == DirJobs(source, target, root, files, limit, count)
    {
      DirJobsAdvance(source, target, root, files, j, limit, count, jobs, jobCount);
      if IsKeggName(files[j].name) {
        var job := JobOf(source, target, root, files[j].name);
        JobLinesSnoc(jobs, job);
        added := added + [JobLine(job)];
        jobs := jobs + [job];
        jobCount := jobCount + 1;
        if LimitReached(limit, jobCount) {
          return;
        }
      }
      j := j + 1;
    }
  }

  /** Rendering one more job adds its line. */
  lemma JobLinesSnoc(a: seq<Job>, j: Job)
    ensures JobLines(a + [j]) == JobLines(a) + [JobLine(j)]
  {
  }

  /** The inner loop's invariant after one more file: `done` are the jobs
      so far and `c` the count after them. */
  lemma DirJobsAdvance(source: string, target: string, root: string, files: seq<File>, j: nat,
                       limit: Option<int>, count: nat, done: seq<Job>, c: nat)
    requires j < |files|
    requires done + DirJobs(source, target, root, files[j..], limit, c)
      == DirJobs(source, target, root, files, limit, count)
    ensures !IsKeggName(files[j].name) ==>
      done + DirJobs(source, target, root, files[j + 1..], limit, c)
      == DirJobs(source, target, root, files, limit, count)
    ensures IsKeggName(files[j].name) && LimitReached(limit, c + 1) ==>
      done + [JobOf(source, target, root, files[j].name)] == DirJobs(source, target, root, files, limit, count)
    ensures IsKeggName(files[j].name) && !LimitReached(limit, c + 1) ==>
      done + [JobOf(source, target, root, files[j].name)] + DirJobs(source, target, root, files[j + 1..], limit, c + 1)
      == DirJobs(source, target, root, files, limit, count)
  {
    DirJobsStep(source, target, root, files, j, limit, c);
    var job := JobOf(source, target, root, files[j].name);
    var rest := DirJobs(source, target, root, files[j + 1..], limit, c + 1);
    assert done + [job] + rest == done + ([job] + rest);
  }

  /** Rendering distributes over runs of jobs. */
  lemma JobLinesAppend(a: seq<Job>, b: seq<Job>)
    ensures JobLines(a + b) == JobLines(a) + JobLines(b)
  {
  }

  /** The jobs of the walk from directory `i` on. */
  lemma WalkJobsStep(source: string, target: string, walk: seq<WalkDir>, i: nat, limit: Option<int>,
                     done: seq<Job>, added: seq<Job>)
    requires i < |walk|
    requires added == DirJobs(source, target, walk[i].root, walk[i].files, limit, |done|)
    requires done + WalkJobs(source, target, walk[i..], limit, |done|) == WalkJobs(source, target, walk, limit, 0)
    ensures done + added + WalkJobs(source, target, walk[i + 1..], limit, |done| + |added|)
      == WalkJobs(source, target, walk, limit, 0)
  {
    assert walk[i..][0] == walk[i] && walk[i..][1..] == walk[i + 1..];
    assert done + added + WalkJobs(source, target, walk[i + 1..], limit, |done| + |added|)
      == done + (added + WalkJobs(source, target, walk[i + 1..], limit, |done| + |added|));
  }

  /** The reference: one line per `.uproc.kegg` file of the directory. */
  function DirLines(source: string, target: string, root: string, files: seq<File>): seq<Job>
    decreases |files|
  {
    if |files| == 0 then []
    else
      (if IsKeggName(files[0].name) then [JobOf(source, target, root, files[0].name)] else [])
      + DirLines(source, target, root, files[1..])
  }

  /** One line per `.uproc.kegg` file of the walk, in walk order. */
  function AllLines(source: string, target: string, walk: seq<WalkDir>): seq<Job>
    decreases |walk|
  {
    if |walk| == 0 then []
    else DirLines(source, target, walk[0].root, walk[0].files) + AllLines(source, target, walk[1..])
  }

  /** The limit is still ahead of the count, and can stop a directory. */
  predicate LimitAhead(limit: Option<int>, count: nat) {
    limit.Some? && count < limit.value
  }

  /** One file of a directory: a `.uproc.kegg` file gives its job, and
      the directory ends when the count after it reaches the limit; any
      other file gives nothing. */
  lemma DirJobsStep(source: string, target: string, root: string, files: seq<File>, j: nat,
                    limit: Option<int>, count: nat)
    requires j < |files|
    ensures !IsKeggName(files[j].name) ==>
      DirJobs(source, target, root, files[j..], limit, count) ==
      DirJobs(source, target, root, files[j + 1..], limit, count)
    ensures IsKeggName(files[j].name) && LimitReached(limit, count + 1) ==>
      DirJobs(source, target, root, files[j..], limit, count) == [JobOf(source, target, root, files[j].name)]
    ensures IsKeggName(files[j].name) && !LimitReached(limit, count + 1) ==>
      DirJobs(source, target, root, files[j..], limit, count) ==
      [JobOf(source, target, root, files[j].name)] + DirJobs(source, target, root, files[j + 1..], limit, count + 1)
  {
    assert files[j..][0] == files[j] && files[j..][1..] == files[j + 1..];
  }

  /** A directory's jobs are the first of its reference jobs. */
  lemma {:induction false} DirJobsPrefix(source: string, target: string, root: string, files: seq<File>,
                                         limit: Option<int>, count: nat)
    ensures DirJobs(source, target, root, files, limit, count) <= DirLines(source, target, root, files)
    decreases |files|
  {
    if |files| > 0 {
      var rest := files[1..];
      if IsKeggName(files[0].name) {
        var job := JobOf(source, target, root, files[0].name);
        var lines := DirLines(source, target, root, rest);
        assert DirLines(source, target, root, files) == [job] + lines;
        if LimitReached(limit, count + 1) {
          assert DirJobs(source, target, root, files, limit, count) == [job];
        } else {
          DirJobsPrefix(source, target, root, rest, limit, count + 1);
          var jobs := DirJobs(source, target, root, rest, limit, count + 1);
          assert DirJobs(source, target, root, files, limit, count) == [job] + jobs;
          assert jobs <= lines;
        }
      } else {
        DirJobsPrefix(source, target, root, rest, limit, count);
      }
    }
  }

  /** When some of a directory's jobs are missing, the count reached the
      limit with the last job written. */
  lemma {:induction false} DirJobsStopAtLimit(source: string, target: string, root: string, files: seq<File>,
                                              limit: Option<int>, count: nat)
    ensures |DirJobs(source, target, root, files, limit, count)| < |DirLines(source, target, root, files)| ==>
      LimitAhead(limit, count) && count + |DirJobs(source, target, root, files, limit, count)| == limit.value
    decreases |files|
  {
    if |files| > 0 {
      DirJobsStopAtLimit(source, target, root, files[1..], limit, if IsKeggName(files[0].name) then count + 1 else count);
    }
  }

  /** With no limit ahead of the count, a directory is written in full. */
  lemma {:induction false} DirJobsComplete(source: string, target: string, root: string, files: seq<File>,
                                           limit: Option<int>, count: nat)
    requires !LimitAhead(limit, count)
    ensures DirJobs(source, target, root, files, limit, count) == DirLines(source, target, root, files)
    decreases |files|
  {
    if |files| > 0 {
      DirJobsComplete(source, target, root, files[1..], limit, if IsKeggName(files[0].name) then count + 1 else count);
    }
  }

  /** Without a limit, or once the count has passed it, every remaining
      `.uproc.kegg` file is written: the limit never stops a later
      directory. */
  lemma {:induction false} WalkJobsComplete(source: string, target: string, walk: seq<WalkDir>,
                                            limit: Option<int>, count: nat)
    requires !LimitAhead(limit, count)
    ensures WalkJobs(source, target, walk, limit, count) == AllLines(source, target, walk)
    decreases |walk|
  {
    if |walk| > 0 {
      DirJobsComplete(source, target, walk[0].root, walk[0].files, limit, count);
      var d := DirJobs(source, target, walk[0].root, walk[0].files, limit, count);
      assert WalkJobs(source, target, walk, limit, count) == d + WalkJobs(source, target, walk[1..], limit, count + |d|);
      WalkJobsComplete(source, target, walk[1..], limit, count + |d|);
    }
  }

  /** Every reference line is the job line of a `.uproc.kegg` file of the
      directory, and every such file has one. */
  lemma {:induction false} DirLinesMember(source: string, target: string, root: string, files: seq<File>, x: Job)
    ensures x in DirLines(source, target, root, files) <==>
      exists j :: 0 <= j < |files| && IsKeggName(files[j].name) && x == JobOf(source, target, root, files[j].name)
    decreases |files|
  {
    if |files| > 0 {
      DirLinesMember(source, target, root, files[1..], x);
      if exists j :: 0 <= j < |files| && IsKeggName(files[j].name) && x == JobOf(source, target, root, files[j].name) {
        var j :| 0 <= j < |files| && IsKeggName(files[j].name) && x == JobOf(source, target, root, files[j].name);
        if j > 0 { assert files[1..][j - 1] == files[j]; }
      }
      if x in DirLines(source, target, root, files[1..]) {
        var j :| 0 <= j < |files[1..]| && IsKeggName(files[1..][j].name) && x == JobOf(source, target, root, files[1..][j].name);
        assert files[j + 1] == files[1..][j];
      }
    }
  }

  /** The limit ends only the directory in which the count reaches it: with
      a limit of one, two directories with one `.uproc.kegg` file each still
      give two jobs. */
  lemma LimitStopsOnlyItsDirectory(source: string, target: string, d1: WalkDir, d2: WalkDir)
    requires |d1.files| == 1 && IsKeggName(d1.files[0].name)
    requires |d2.files| == 1 && IsKeggName(d2.files[0].name)
    ensures |WalkJobs(source, target, [d1, d2], Some(1), 0)| == 2
  {
    var walk := [d1, d2];
    var j1 := DirJobs(source, target, d1.root, d1.files, Some(1), 0);
    var j2 := DirJobs(source, target, d2.root, d2.files, Some(1), 1);
    assert d1.files[1..] == [] && d2.files[1..] == [];
    assert j1 == [JobOf(source, target, d1.root, d1.files[0].name)];
    assert !LimitReached(Some(1), 2);
    assert DirJobs(source, target, d2.root, d2.files[1..], Some(1), 2) == [];
    assert j2 == [JobOf(source, target, d2.root, d2.files[0].name)];
    assert walk[1..] == [d2] && walk[1..][1..] == [];
    assert WalkJobs(source, target, [d2], Some(1), 1) == j2 + WalkJobs(source, target, [], Some(1), 2);
  }
}
