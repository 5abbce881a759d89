/**
  The scheduler object (src/monitor.cpp). Its threads are modelled as steps
  taken one at a time: `MonitorPass` is one iteration of the scanning thread,
  `WorkerStep` one transition of one worker thread, and `Stop` joins the
  workers one after another. Each method states its new state through the
  functions of `MonitorSpec`, with the environment's choices returned as ghost
  outcomes.
 */
module Monitor {
  import opened Options
  import opened Text
  import opened Fs
  import opened Runner
  import opened MonitorSpec

  /** The five directories `setup()` creates. */
  const WORKSPACE_DIRS: set<Dir> := {Writing, Ready, Output, Processing, Failed}

  /** The scan of one `std::getline`: the position of the next newline at or after `pos`, or the end of the text. */
  method LineEnd(text: string, pos: nat) returns (end: nat)
    requires pos <= |text|
    ensures pos <= end <= |text|
    ensures forall j :: pos <= j < end ==> text[j] != '\n'
    ensures end == |text| || text[end] == '\n'
  {
    end := pos;
    while end < |text| && text[end] != '\n'
      invariant pos <= end <= |text|
      invariant forall j :: pos <= j < end ==> text[j] != '\n'
    {
      end := end + 1;
    }
  }

  /** One `std::getline` at `pos`: the line up to the next newline, and where reading goes on. */
  method GetLine(text: string, pos: nat) returns (line: string, next: nat)
    requires pos < |text|
    ensures pos < next <= |text| + 1
    ensures Lines(text[pos..]) == [line] + Lines(if next <= |text| then text[next..] else [])
  {
    var end := LineEnd(text, pos);
    LinesAt(text, pos, end);
    line := text[pos..end];
    next := end + 1;
  }

  /** The `getline` loop of `readEmailFromMeta` over the sidecar's text. */
  method ScanEmail(text: string) returns (email: string)
    ensures email == EmailIn(text)
  {
    var pos := 0;
    assert text[pos..] == text;
    while pos < |text|
      invariant pos <= |text| + 1
      invariant EmailIn(text) == EmailFrom(text, pos)
      decreases |text| + 1 - pos
    {
      var line, next := GetLine(text, pos);
      EmailFromStep(text, pos, line, next);
      if StartsWith(line, EMAIL_KEY) {
        return line[|EMAIL_KEY|..];
      }
      pos := next;
    }
    email := "";
  }

  class Monitor {
    const fs: FileSystem
    const llm: Llm
    const modelPath: string
    const numWorkers: int
    var running: bool
    var runners: seq<Handle>
    var workers: seq<WorkerState>
    var queue: seq<string>

    /**
      Between public calls: either no runner or one per worker; workers exist
      exactly while running, one per runner.
     */
    ghost predicate Valid()
      reads this
    {
      && (runners == [] || (numWorkers > 0 && |runners| == numWorkers))
      && (running <==> workers != [])
      && (running ==> |workers| == |runners|)
    }

    constructor (fs: FileSystem, llm: Llm, modelPath: string, numWorkers: int)
      ensures Valid()
      ensures this.fs == fs && this.llm == llm && this.modelPath == modelPath && this.numWorkers == numWorkers
      ensures !running && runners == [] && workers == [] && queue == []
    {
      this.fs := fs;
      this.llm := llm;
      this.modelPath := modelPath;
      this.numWorkers := numWorkers;
      running := false;
      runners := [];
      workers := [];
      queue := [];
    }

    /** `setup()`: create the five directories in order, stopping at the first that cannot be created. */
    method Setup() returns (ok: bool)
      modifies fs
      ensures fs.disk.files == old(fs.disk.files)
      ensures old(fs.disk.dirs) <= fs.disk.dirs <= old(fs.disk.dirs) + WORKSPACE_DIRS
      ensures ok <==> WORKSPACE_DIRS <= fs.disk.dirs
      ensures WORKSPACE_DIRS <= old(fs.disk.dirs) ==> ok && fs.disk == old(fs.disk)
    {
      ok := fs.CreateDirectory(Writing);
      if !ok { return; }
      ok := fs.CreateDirectory(Ready);
      if !ok { return; }
      ok := fs.CreateDirectory(Output);
      if !ok { return; }
      ok := fs.CreateDirectory(Processing);
      if !ok { return; }
      ok := fs.CreateDirectory(Failed);
    }

    /**
      `start()`: refuse when already started, then set up the workspace and load
      one runner per worker. A negative worker count makes `reserve` throw; a
      model that cannot be loaded makes the first runner throw.
     */
    method Start(modelLoads: bool) returns (ok: bool)
      requires Valid()
      modifies this`runners, fs
      ensures Valid()
      ensures ok <==> && old(runners) == [] && !running
                      && WORKSPACE_DIRS <= fs.disk.dirs
                      && numWorkers >= 0 && (numWorkers > 0 ==> modelLoads)
      ensures ok ==> |runners| == numWorkers && forall k :: 0 <= k < |runners| ==> runners[k] == Handle(modelPath)
      ensures !ok ==> runners == old(runners)
      ensures old(runners) != [] || running ==> fs.disk == old(fs.disk)
      ensures fs.disk.files == old(fs.disk.files)
      ensures old(fs.disk.dirs) <= fs.disk.dirs <= old(fs.disk.dirs) + WORKSPACE_DIRS
    {
      if runners != [] || running {
        return false;
      }
      ok := Setup();
      if !ok {
        return;
      }
      if numWorkers < 0 {
        return false;
      }
      var loaded: seq<Handle> := [];
      var i := 0;
      while i < numWorkers
        invariant 0 <= i <= numWorkers && |loaded| == i
        invariant forall k :: 0 <= k < i ==> loaded[k] == Handle(modelPath)
        invariant i > 0 ==> modelLoads
      {
        if !modelLoads {
          return false;
        }
        loaded := loaded + [Handle(modelPath)];
        i := i + 1;
      }
      runners := loaded;
    }

    /** `run()`: with runners loaded and nothing running, raise the flag and start one worker per runner. */
    method Run()
      requires Valid()
      modifies this`running, this`workers
      ensures Valid()
      ensures if !old(running) && old(runners) != []
        then running && |workers| == |runners| && forall k :: 0 <= k < |workers| ==> workers[k] == Looping
        else running == old(running) && workers == old(workers)
    {
      if running || workers != [] {
        return;
      }
      if runners == [] {
        return;
      }
      running := true;
      var started: seq<WorkerState> := [];
      while |started| < numWorkers
        invariant |started| <= numWorkers
        invariant forall k :: 0 <= k < |started| ==> started[k] == Looping
      {
        started := started + [Looping];
      }
      workers := started;
    }

    /** The claim block shared by the scanning thread and `process()`. */
    method Claim(name: string) returns (claimed: Option<string>, ghost o: ClaimOutcome)
      modifies fs
      ensures fs.disk == ClaimEntry(old(fs.disk), name, o).0
      ensures claimed == ClaimEntry(old(fs.disk), name, o).1
    {
      o := ClaimOutcome(false, false);
      if !IsTxt(name) || !fs.disk.IsRegular(Path(Ready, name)) {
        claimed := None;
        return;
      }
      var id := Stem(name);
      var moved := fs.Rename(Path(Ready, name), Path(Processing, name));
      if !moved {
        claimed := None;
        return;
      }
      o := ClaimOutcome(true, false);
      var meta := Path(Ready, MetaName(id));
      if fs.Exists(meta) {
        var metaMoved := fs.Rename(meta, Path(Processing, MetaName(id)));
        o := ClaimOutcome(true, metaMoved);
        if !metaMoved {
          claimed := None;
          return;
        }
      }
      claimed := Some(id);
    }

    /**
      One iteration of `monitorDirectory` over the ready directory's listing:
      claim every ready job and enqueue the ids, in listing order. The thread
      only scans while the flag is raised.
     */
    method MonitorPass(listing: seq<string>) returns (ghost os: seq<ClaimOutcome>)
      modifies this`queue, fs
      ensures |os| == |listing|
      ensures running ==>
        fs.disk == ScanReady(old(fs.disk), listing, os).0
        && queue == old(queue) + ScanReady(old(fs.disk), listing, os).1
      ensures !running ==> fs.disk == old(fs.disk) && queue == old(queue)
    {
      os := seq(|listing|, _ => ClaimOutcome(false, false));
      if !running || Ready !in fs.disk.dirs {
        return;
      }
      ghost var d0 := fs.disk;
      ghost var q0 := queue;
      os := [];
      var i := 0;
      assert listing[..0] == [] && queue[|q0|..] == [];
      while i < |listing|
        invariant 0 <= i <= |listing| && |os| == i
        invariant |q0| <= |queue| && queue[..|q0|] == q0
        invariant fs.disk == ClaimAll(d0, listing[..i], os).0
        invariant queue[|q0|..] == ClaimAll(d0, listing[..i], os).1
      {
        ghost var before := fs.disk;
        ghost var queuedBefore := queue;
        var claimed;
        ghost var o;
        claimed, o := Claim(listing[i]);
        if claimed.Some? {
          queue := queue + [claimed.value];
        }
        ClaimAllSnoc(d0, listing[..i], os, listing[i], o);
        assert listing[..i + 1] == listing[..i] + [listing[i]];
        assert queue[|q0|..] == queuedBefore[|q0|..] + OptionToSeq(claimed);
        os := os + [o];
        i := i + 1;
      }
      assert listing[..i] == listing;
      assert queue == q0 + queue[|q0|..];
    }

    /** `readEmailFromMeta(path)`: the text after `email=` on the sidecar's first line that starts with it. */
    method ReadEmailFromMeta(metaPath: Path) returns (email: string)
      ensures email == SidecarEmail(fs.disk, metaPath)
    {
      if !fs.Exists(metaPath) {
        return "";
      }
      var read := fs.Read(metaPath);
      if read.None? {
        return "";
      }
      email := ScanEmail(read.value);
    }

    /** `processJob(id, workerId)` on the claimed files of job `id`, with the runner of worker `workerId`. */
    method ProcessJob(id: string, workerId: nat) returns (ok: bool, ghost o: JobOutcome)
      requires workerId < |runners|
      modifies fs
      ensures fs.disk == MonitorSpec.ProcessJob(old(fs.disk), llm, id, o).0
      ensures ok == MonitorSpec.ProcessJob(old(fs.disk), llm, id, o).1
    {
      var text := fs.Read(ProcessingText(id));
      if text.None? {
        ghost var moved := MoveToFailed(id);
        return false, JobOutcome(false, moved);
      }
      var result := Runner.Run(llm, text.value);
      if result == "" {
        ghost var moved := MoveToFailed(id);
        return false, JobOutcome(false, moved);
      }
      var written := fs.Write(OutputText(id), result);
      if !written {
        ghost var moved := MoveToFailed(id);
        return false, JobOutcome(false, moved);
      }
      // The notification runs an external mail command; it changes nothing here.
      var email := ReadEmailFromMeta(ProcessingMeta(id));
      fs.Remove(ProcessingText(id));
      if fs.Exists(ProcessingMeta(id)) {
        fs.Remove(ProcessingMeta(id));
      }
      ok := true;
      o := JobOutcome(true, false);
    }

    /** The failure path of `processJob`. */
    method MoveToFailed(id: string) returns (ghost moved: bool)
      modifies fs
      ensures fs.disk == FailJob(old(fs.disk), id, moved)
    {
      var renamed := fs.Rename(ProcessingText(id), FailedText(id));
      moved := renamed;
      if renamed {
        if fs.Exists(ProcessingMeta(id)) {
          fs.Remove(ProcessingMeta(id));
        }
      } else {
        fs.Remove(ProcessingText(id));
        fs.Remove(ProcessingMeta(id));
      }
    }

    /**
      One transition of worker `i` in `workerFunction`: at the loop test it
      waits while the flag is up and returns otherwise; in the wait it stays
      blocked, returns, or takes the queue's front job and runs it.
     */
    method WorkerStep(i: nat) returns (ghost taken: Option<string>, ghost o: JobOutcome)
      requires i < |workers| <= |runners|
      modifies this`workers, this`queue, fs
      ensures |workers| == |old(workers)|
      ensures forall j :: 0 <= j < |workers| && j != i ==> workers[j] == old(workers)[j]
      ensures old(workers)[i] == Looping ==>
        workers[i] == (if running then Waiting else Exited) && taken == None
      ensures old(workers)[i] == Exited ==> workers[i] == Exited && taken == None
      ensures old(workers)[i] == Waiting && Wakeup(running, old(queue)) == Blocked ==> workers[i] == Waiting && taken == None
      ensures old(workers)[i] == Waiting && Wakeup(running, old(queue)) == Exit ==> workers[i] == Exited && taken == None
      ensures old(workers)[i] == Waiting && Wakeup(running, old(queue)).Take? ==>
        workers[i] == Looping && taken == Some(Wakeup(running, old(queue)).id)
      ensures taken.None? ==> queue == old(queue) && fs.disk == old(fs.disk)
      ensures taken.Some? ==>
        && old(queue) != [] && taken.value == old(queue)[0] && queue == old(queue)[1..]
        && fs.disk == MonitorSpec.ProcessJob(old(fs.disk), llm, taken.value, o).0
    {
      taken := None;
      o := JobOutcome(false, false);
      match workers[i]
      case Exited =>
      case Looping =>
        workers := workers[i := if running then Waiting else Exited];
      case Waiting =>
        if queue == [] {
          if !running {
            workers := workers[i := Exited];
          }
        } else {
          var id := queue[0];
          queue := queue[1..];
          var ok;
          ok, o := ProcessJob(id, i);
          taken := Some(id);
          workers := workers[i := Looping];
        }
    }

    /**
      `join()` on worker `i` once the flag is down: the worker runs until it
      returns, taking at most the queue's front job on its way out.
     */
    method JoinWorker(i: nat) returns (ghost taken: Option<string>, ghost o: JobOutcome)
      requires i < |workers| <= |runners| && !running
      modifies this`workers, this`queue, fs
      ensures |workers| == |old(workers)| && workers[i] == Exited
      ensures forall j :: 0 <= j < |workers| && j != i ==> workers[j] == old(workers)[j]
      ensures taken.None? ==> queue == old(queue) && fs.disk == old(fs.disk)
      ensures taken.Some? ==>
        && old(queue) != [] && taken.value == old(queue)[0] && queue == old(queue)[1..]
        && fs.disk == MonitorSpec.ProcessJob(old(fs.disk), llm, taken.value, o).0
    {
      taken := None;
      o := JobOutcome(false, false);
      while workers[i] != Exited
        invariant |workers| == |old(workers)|
        invariant forall j :: 0 <= j < |workers| && j != i ==> workers[j] == old(workers)[j]
        invariant workers[i] == Waiting ==> taken.None?
        invariant taken.None? ==> queue == old(queue) && fs.disk == old(fs.disk)
        invariant taken.Some? ==>
          && old(queue) != [] && taken.value == old(queue)[0] && queue == old(queue)[1..]
          && fs.disk == MonitorSpec.ProcessJob(old(fs.disk), llm, taken.value, o).0
        decreases Rank(workers[i])
      {
        ghost var got: Option<string>;
        ghost var ran: JobOutcome;
        got, ran := WorkerStep(i);
        if got.Some? {
          taken, o := got, ran;
        }
      }
    }

    /**
      `stop()`: lower the flag, wake everyone and join the workers in order. A
      worker still waiting takes at most one more job on its way out. The rest
      stay queued, with their text in `processing/`: the queue is not cleared,
      so a later `start()` and `run()` on the same monitor hands them to the new
      workers. The runners are released either way.
     */
    method Stop() returns (ghost taken: seq<string>, ghost os: seq<JobOutcome>)
      requires Valid()
      modifies this`running, this`workers, this`runners, this`queue, fs
      ensures Valid() && !running && workers == [] && runners == []
      ensures |taken| <= |old(workers)| && |os| == |taken|
      ensures |taken| <= |old(queue)| && taken == old(queue)[..|taken|] && queue == old(queue)[|taken|..]
      ensures fs.disk == ProcessJobs(old(fs.disk), llm, taken, os)
    {
      taken := [];
      os := [];
      if running {
        running := false;
        ghost var d0 := fs.disk;
        ghost var q0 := queue;
        var i := 0;
        while i < |workers|
          invariant runners == old(runners) && |workers| == |old(workers)| == |runners|
          invariant 0 <= i <= |workers| && !running
          invariant |taken| <= i && |os| == |taken|
          invariant |taken| <= |q0| && taken == q0[..|taken|] && queue == q0[|taken|..]
          invariant fs.disk == ProcessJobs(d0, llm, taken, os)
        {
          ghost var got: Option<string>;
          ghost var o: JobOutcome;
          got, o := JoinWorker(i);
          if got.Some? {
            ProcessJobsSnoc(d0, llm, taken, os, got.value, o);
            assert q0[..|taken| + 1] == q0[..|taken|] + [q0[|taken|]];
            assert queue == q0[|taken| + 1..];
            taken := taken + [got.value];
            os := os + [o];
          }
          i := i + 1;
        }
        workers := [];
      }
      runners := [];
    }

    /** `process()`: claim and run every ready job at once, with the first runner, and count the completed ones. */
    method Process(listing: seq<string>) returns (processed: nat, ghost os: seq<ShotOutcome>)
      modifies fs
      ensures |os| == |listing|
      ensures fs.disk == ProcessOnce(old(fs.disk), llm, runners != [], listing, os).0
      ensures processed == ProcessOnce(old(fs.disk), llm, runners != [], listing, os).1
    {
      os := seq(|listing|, _ => ShotOutcome(ClaimOutcome(false, false), JobOutcome(false, false)));
      processed := 0;
      if runners == [] || Ready !in fs.disk.dirs {
        return;
      }
      ghost var d0 := fs.disk;
      os := [];
      var i := 0;
      while i < |listing|
        invariant 0 <= i <= |listing| && |os| == i
        invariant fs.disk == ProcessEntries(d0, llm, listing[..i], os).0
        invariant processed == ProcessEntries(d0, llm, listing[..i], os).1
      {
        var ok;
        ghost var o;
        ok, o := ProcessEntry(listing[i]);
        if ok {
          processed := processed + 1;
        }
        ProcessEntriesStep(d0, llm, listing[..i], os, listing[i], o);
        assert listing[..i + 1] == listing[..i] + [listing[i]];
        os := os + [o];
        i := i + 1;
      }
      assert listing[..i] == listing;
    }

    /** One entry of `process()`: claim it, then run it at once with the first runner. */
    method ProcessEntry(name: string) returns (ok: bool, ghost o: ShotOutcome)
      requires runners != []
      modifies fs
      ensures fs.disk == MonitorSpec.ProcessEntry(old(fs.disk), llm, name, o).0
      ensures ok == MonitorSpec.ProcessEntry(old(fs.disk), llm, name, o).1
    {
      var claimed;
      ghost var c;
      claimed, c := Claim(name);
      o := ShotOutcome(c, JobOutcome(false, false));
      ok := false;
      if claimed.Some? {
        ghost var job;
        ok, job := ProcessJob(claimed.value, 0);
        o := ShotOutcome(c, job);
      }
    }

    /** `findJobs()`: the ids of the ready jobs in a listing of the ready directory. */
    method FindJobs(listing: seq<string>) returns (jobs: seq<string>)
      ensures jobs == MonitorSpec.FindJobs(fs.disk, listing)
    {
      jobs := [];
      if Ready !in fs.disk.dirs {
        return;
      }
      var i := 0;
      while i < |listing|
        invariant 0 <= i <= |listing|
        invariant jobs == ReadyStems(fs.disk, listing[..i])
      {
        ReadyStemsSnoc(fs.disk, listing[..i], listing[i]);
        assert listing[..i + 1] == listing[..i] + [listing[i]];
        if IsTxt(listing[i]) && fs.disk.IsRegular(Path(Ready, listing[i])) {
          jobs := jobs + [Stem(listing[i])];
        }
        i := i + 1;
      }
      assert listing[..i] == listing;
    }
  }
}
