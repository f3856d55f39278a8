/**
 * The supervisor of one Minecraft server process: a small state machine over
 * the running flag and the process handle, with a FIFO queue of console lines
 * that the reader and the control operations fill and the UI drains.
 *
 * What the operating system answers is handed in: whether the jar exists,
 * how the spawn went, what the reader reads, whether the process is still
 * alive after the grace period, whether a write to its stdin fails, and the
 * resource sample. The reader thread is modelled as atomic steps
 * (`ReaderStep`, `ObserveExit`) and as the loop `MonitorOutput` built from them.
 */
module Server {
  import opened Wrappers
  import opened Text

  /** A spawned server process, known by its process id. */
  datatype Process = Process(pid: nat)

  /** What `subprocess.Popen` did: started a process, or raised an error with this text. */
  datatype SpawnOutcome = Spawned(pid: nat) | SpawnFailed(error: string)

  /** A resource sample of the live process: CPU percentage and resident set size in bytes. */
  datatype Usage = Usage(cpu: real, rssBytes: nat)

  /** The `{"cpu": ..., "ram": ...}` record, RAM in megabytes. */
  datatype Stats = Stats(cpu: real, ram: real)

  const BytesPerMegabyte: nat := 1024 * 1024

  /** The queue entries the reader produces for the lines it read: every non-empty read, stripped. */
  function Delivered(got: seq<string>): (out: seq<string>)
    ensures |out| <= |got|
  {
    if got == [] then []
    else
      var last := got[|got| - 1];
      Delivered(got[..|got| - 1]) + (if last != "" then [Strip(last)] else [])
  }

  /** Reads are delivered one by one, in order, each a stripped line. */
  lemma {:induction false} DeliveredSpec(got: seq<string>)
    ensures forall s :: s in Delivered(got) ==> Trimmed(s) && exists l :: l in got && l != "" && s == Strip(l)
  {
    if got != [] {
      DeliveredSpec(got[..|got| - 1]);
      var last := got[|got| - 1];
      if last != "" {
        StripIsTrimmed(last);
      }
      forall s | s in Delivered(got)
        ensures Trimmed(s) && exists l :: l in got && l != "" && s == Strip(l)
      {
        if s in Delivered(got[..|got| - 1]) {
          var l :| l in got[..|got| - 1] && l != "" && s == Strip(l);
          assert l in got;
        } else {
          assert last in got;
        }
      }
    }
  }

  /** Delivering two batches in turn is delivering them together. */
  lemma {:induction false} DeliveredAppend(a: seq<string>, b: seq<string>)
    ensures Delivered(a + b) == Delivered(a) + Delivered(b)
    decreases |b|
  {
    if b == [] {
      assert a + b == a;
    } else {
      var b' := b[..|b| - 1];
      assert (a + b)[..|a + b| - 1] == a + b';
      DeliveredAppend(a, b');
    }
  }

  class ServerManager {
    const serverDir: string
    const jarName: string
    const javaPath: string
    /** `self.process`: the last spawned process, kept after it ends. */
    var process: Option<Process>
    /** `self.is_running`. */
    var isRunning: bool
    /** `self.output_queue`, oldest line first. */
    var output: seq<string>
    /** What has been written to the current process's stdin, oldest first. */
    var stdin: seq<string>

    /** A running server always has a process handle. */
    predicate Valid()
      reads this
    {
      isRunning ==> process.Some?
    }

    constructor (serverDir: string, jarName: string, javaPath: string)
      ensures Valid()
      ensures this.serverDir == serverDir && this.jarName == jarName && this.javaPath == javaPath
      ensures process.None? && !isRunning && output == [] && stdin == []
    {
      this.serverDir := serverDir;
      this.jarName := jarName;
      this.javaPath := javaPath;
      process := None;
      isRunning := false;
      output := [];
      stdin := [];
    }

    /** The message queued when the jar is missing. */
    function JarMissingMessage(): string
      reads this
    {
      "Error: " + jarName + " not found in " + serverDir
    }

    /**
     * `start_server`: refused while running; a missing jar or a failed spawn
     * queues one error line and changes nothing else; a spawn starts the
     * process, with a fresh stdin, and sets the flag.
     */
    method Start(jarExists: bool, spawn: SpawnOutcome) returns (started: bool)
      requires Valid()
      modifies this
      ensures Valid()
      ensures started <==> !old(isRunning) && jarExists && spawn.Spawned?
      ensures old(isRunning) ==>
        isRunning && process == old(process) && output == old(output) && stdin == old(stdin)
      ensures !old(isRunning) && !jarExists ==>
        !isRunning && process == old(process) && output == old(output) + [JarMissingMessage()] && stdin == old(stdin)
      ensures !old(isRunning) && jarExists && spawn.SpawnFailed? ==>
        !isRunning && process == old(process) && stdin == old(stdin) &&
        output == old(output) + ["Failed to start server: " + spawn.error]
      ensures started ==>
        isRunning && process == Some(Process(spawn.pid)) && output == old(output) && stdin == []
    {
      if isRunning {
        return false;
      }
      if !jarExists {
        output := output + [JarMissingMessage()];
        return false;
      }
      match spawn {
        case Spawned(pid) =>
          process := Some(Process(pid));
          stdin := [];
          isRunning := true;
          return true;
        case SpawnFailed(e) =>
          output := output + ["Failed to start server: " + e];
          return false;
      }
    }

    /** One pass of the reader loop: a non-empty read is queued stripped, an empty one is skipped. */
    method ReaderStep(line: string)
      requires Valid()
      modifies this
      ensures Valid()
      ensures output == old(output) + Delivered([line])
      ensures process == old(process) && isRunning == old(isRunning) && stdin == old(stdin)
    {
      assert [line][..0] == [];
      if line != "" {
        output := output + [Strip(line)];
      }
    }

    /** The reader's last step once the process has exited: the flag is cleared and `Server stopped.` queued. */
    method ObserveExit()
      requires Valid()
      modifies this
      ensures Valid()
      ensures old(process).Some? ==> !isRunning && output == old(output) + ["Server stopped."]
      ensures old(process).None? ==> isRunning == old(isRunning) && output == old(output)
      ensures process == old(process) && stdin == old(stdin)
    {
      if process.Some? {
        isRunning := false;
        output := output + ["Server stopped."];
      }
    }

    /**
     * `_monitor_output` for a process that produced the reads `got` and then exited:
     * every non-empty read is queued stripped, in read order, then the exit
     * is observed.
     */
    method MonitorOutput(got: seq<string>)
      requires Valid()
      modifies this
      ensures Valid()
      ensures old(process).Some? ==>
        !isRunning && output == old(output) + Delivered(got) + ["Server stopped."]
      ensures old(process).None? ==> isRunning == old(isRunning) && output == old(output)
      ensures process == old(process) && stdin == old(stdin)
    {
      if process.None? {
        return;
      }
      for i := 0 to |got|
        invariant Valid() && process == old(process) && stdin == old(stdin) && isRunning == old(isRunning)
        invariant output == old(output) + Delivered(got[..i])
      {
        ReaderStep(got[i]);
        DeliveredAppend(got[..i], [got[i]]);
        assert got[..i + 1] == got[..i] + [got[i]];
      }
      assert got[..|got|] == got;
      ObserveExit();
    }

    /** `kill_server`: with a process handle, the flag is cleared and `Server killed.` queued; otherwise nothing. */
    method Kill()
      requires Valid()
      modifies this
      ensures Valid()
      ensures old(process).Some? ==> !isRunning && output == old(output) + ["Server killed."]
      ensures old(process).None? ==> isRunning == old(isRunning) && output == old(output)
      ensures process == old(process) && stdin == old(stdin)
    {
      if process.Some? {
        isRunning := false;
        output := output + ["Server killed."];
      }
    }

    /**
     * `send_command`: only while running; the command goes to stdin with a
     * newline, or, when the write fails with `writeError`, one error line is
     * queued instead.
     */
    method SendCommand(command: string, writeError: Option<string>)
      requires Valid()
      modifies this
      ensures Valid()
      ensures !old(isRunning) ==> output == old(output) && stdin == old(stdin)
      ensures old(isRunning) && writeError.None? ==> output == old(output) && stdin == old(stdin) + [command + "\n"]
      ensures old(isRunning) && writeError.Some? ==>
        output == old(output) + ["Error sending command: " + writeError.value] && stdin == old(stdin)
      ensures process == old(process) && isRunning == old(isRunning)
    {
      if isRunning && process.Some? {
        match writeError {
          case None =>
            stdin := stdin + [command + "\n"];
          case Some(e) =>
            output := output + ["Error sending command: " + e];
        }
      }
    }

    /**
     * `stop_server`: only while running; sends `stop`, and when the process
     * is still alive after the grace period kills it; the flag ends cleared.
     */
    method Stop(writeError: Option<string>, aliveAfterGrace: bool)
      requires Valid()
      modifies this
      ensures Valid()
      ensures !old(isRunning) ==> isRunning == old(isRunning) && output == old(output) && stdin == old(stdin)
      ensures old(isRunning) ==> !isRunning
      ensures old(isRunning) ==> stdin == old(stdin) + (if writeError.None? then ["stop\n"] else [])
      ensures old(isRunning) ==>
        output == old(output) +
          (if writeError.Some? then ["Error sending command: " + writeError.value] else []) +
          (if aliveAfterGrace then ["Server killed."] else [])
      ensures process == old(process)
    {
      if isRunning && process.Some? {
        assert "stop" + "\n" == "stop\n";
        SendCommand("stop", writeError);
        if aliveAfterGrace {
          Kill();
        }
        isRunning := false;
      }
    }

    /** `get_console_output`: every queued line, oldest first; the queue ends empty. */
    method GetConsoleOutput() returns (lines: seq<string>)
      requires Valid()
      modifies this
      ensures Valid()
      ensures lines == old(output) && output == []
      ensures process == old(process) && isRunning == old(isRunning) && stdin == old(stdin)
    {
      lines := [];
      while output != []
        invariant Valid() && process == old(process) && isRunning == old(isRunning) && stdin == old(stdin)
        invariant lines + output == old(output)
        decreases |output|
      {
        lines := lines + [output[0]];
        output := output[1..];
      }
    }

    /** `get_status`. */
    function GetStatus(): (s: string)
      reads this
      ensures s == "Online" <==> isRunning
      ensures s == "Online" || s == "Offline"
    {
      if isRunning then "Online" else "Offline"
    }

    /**
     * `get_performance_stats` given the sample of the process (`None` when the
     * process no longer exists): zero unless running with a live process,
     * otherwise its CPU share and its resident memory in megabytes.
     */
    function PerformanceStats(sample: Option<Usage>): (r: Stats)
      reads this
      ensures !isRunning || process.None? || sample.None? ==> r == Stats(0.0, 0.0)
      ensures isRunning && process.Some? && sample.Some? ==>
        r.cpu == sample.value.cpu && r.ram * BytesPerMegabyte as real == sample.value.rssBytes as real
    {
      if !isRunning || process.None? then Stats(0.0, 0.0)
      else
        match sample
        case None => Stats(0.0, 0.0)
        case Some(u) => Stats(u.cpu, u.rssBytes as real / 1024.0 / 1024.0)
    }
  }

  /** A second start while the first is running is refused and leaves everything as it was. */
  method StartTwice(dir: string, jar: string, pid: nat, pid': nat) returns (first: bool, second: bool, status: string)
    ensures first && !second && status == "Online"
  {
    var m := new ServerManager(dir, jar, "java");
    first := m.Start(true, Spawned(pid));
    second := m.Start(true, Spawned(pid'));
    status := m.GetStatus();
  }

  /** Draining twice in a row: the first drain returns the queue, the second returns nothing. */
  method DrainTwice(dir: string, jar: string, got: seq<string>, pid: nat) returns (first: seq<string>, second: seq<string>)
    ensures first == Delivered(got) + ["Server stopped."] && second == []
  {
    var m := new ServerManager(dir, jar, "java");
    var started := m.Start(true, Spawned(pid));
    m.MonitorOutput(got);
    first := m.GetConsoleOutput();
    second := m.GetConsoleOutput();
  }

  /** A missing jar queues exactly the one error line naming the jar and the directory, and leaves the server offline. */
  method StartWithoutJar(dir: string, jar: string, spawn: SpawnOutcome) returns (started: bool, lines: seq<string>, status: string)
    ensures !started && status == "Offline"
    ensures lines == ["Error: " + jar + " not found in " + dir]
  {
    var m := new ServerManager(dir, jar, "java");
    started := m.Start(false, spawn);
    lines := m.GetConsoleOutput();
    status := m.GetStatus();
  }
}
