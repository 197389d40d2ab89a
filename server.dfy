/**
 * The preview-server lifecycle (rust/src/server.rs): starting a background
 * server for a file, stopping it, stopping all of them, finding a free port,
 * the reload notifications sent over a WebSocket, and the reload script
 * spliced into every served page.
 *
 * The operating system is represented by parameters: `alive(pid)` answers
 * whether a process is running, `killOk(pid)` whether terminating it
 * succeeds, `canBind(port)` whether a listener can bind 127.0.0.1:port, and
 * `launch` is what the detached launcher printed on standard output (None
 * when it could not be spawned).
 */
module Server {
  import opened RustCore
  import opened RustStr
  import opened RustPath
  import opened FileUtils

  /** Ports are tried from 4000 up to, but not including, 5000. */
  const PORT_FIRST: u16 := 4000
  const PORT_END: u16 := 5000

  // ---------------------------------------------------------------------------
  // find_available_port

  /** The least port in [from, 5000) that can be bound, if any. */
  function FirstFreePort(canBind: u16 -> bool, from: u16): Option<u16>
    requires PORT_FIRST <= from <= PORT_END
    decreases PORT_END - from
  {
    if from == PORT_END then None
    else if canBind(from) then Some(from)
    else FirstFreePort(canBind, from + 1)
  }

  /**
   * `FirstFreePort` finds the least bindable port at or above `from`, and
   * finds none exactly when no port up to 4999 binds.
   */
  lemma {:induction false} FirstFreePortIsLeast(canBind: u16 -> bool, from: u16)
    requires PORT_FIRST <= from <= PORT_END
    ensures var r := FirstFreePort(canBind, from);
      && (r.Some? ==> from <= r.value < PORT_END && canBind(r.value))
      && (r.Some? ==> forall p: u16 :: from <= p < r.value ==> !canBind(p))
      && (r.None? <==> forall p: u16 :: from <= p < PORT_END ==> !canBind(p))
    decreases PORT_END - from
  {
    if from < PORT_END && !canBind(from) {
      FirstFreePortIsLeast(canBind, from + 1);
    }
  }

  /** `find_available_port`: the ports are tried in increasing order and the first that binds wins. */
  method FindAvailablePort(canBind: u16 -> bool) returns (r: Option<u16>)
    ensures r == FirstFreePort(canBind, PORT_FIRST)
  {
    for port := PORT_FIRST to PORT_END
      invariant forall p: u16 :: PORT_FIRST <= p < port ==> !canBind(p)
      invariant FirstFreePort(canBind, PORT_FIRST) == FirstFreePort(canBind, port)
    {
      if canBind(port) {
        return Some(port);
      }
    }
    return None;
  }

  // ---------------------------------------------------------------------------
  // start_preview_server

  datatype StartOutcome =
    | AlreadyRunning(port: u16)   // a live server already serves the file; nothing is written
    | Launched(port: u16, pid: u32)

  datatype StartError =
    | NoAvailablePort   // every port in [4000, 5000) is taken
    | SpawnFailed       // the background launcher could not be started
    | PidUnreadable     // what the launcher printed is not a u32 once trimmed

  /** The pid the detached launcher reports: its output, trimmed, parsed as a u32. */
  function LaunchedPid(launch: Option<string>): Result<u32, StartError>
  {
    match launch
    case None => Err(SpawnFailed)
    case Some(out) =>
      match ParseUnsigned(Trim(out), U32_LIMIT)
      case None => Err(PidUnreadable)
      case Some(pid) => Ok(pid)
  }

  /** The registry without a record and its companion (the companion may be absent). */
  function Forget(files: Files, name: string): Files {
    files - {name, CompanionPath(name)}
  }

  /** Clearing a record twice is clearing it once. */
  lemma ForgetTwice(files: Files, name: string)
    ensures Forget(Forget(files, name), name) == Forget(files, name)
  {
  }

  /**
   * `start_preview_server` as a function of the registry before the call: the
   * outcome and the registry after it. A readable record whose process is
   * alive means the server is already running. A readable record of a dead
   * process is deleted with its companion; an unreadable record is left to be
   * overwritten. Then a port is picked, the server launched, and the record
   * and companion written.
   */
  function StartPreview(files: Files, name: string, inputPath: string, alive: u32 -> bool,
                        canBind: u16 -> bool, launch: Option<string>): (Result<StartOutcome, StartError>, Files)
  {
    var record := ReadServerInfo(files, name);
    if record.Ok? && alive(record.value.pid) then
      (Ok(AlreadyRunning(record.value.port)), files)
    else
      var healed := if record.Ok? then Forget(files, name) else files;
      match FirstFreePort(canBind, PORT_FIRST)
      case None => (Err(NoAvailablePort), healed)
      case Some(port) =>
        match LaunchedPid(launch)
        case Err(e) => (Err(e), healed)
        case Ok(pid) => (Ok(Launched(port, pid)), Registered(healed, name, port, pid, inputPath))
  }

  /**
   * A start reports a running server exactly when the file's record reads
   * back with a live pid, and then it reports that record's port and leaves
   * the registry as it was.
   */
  lemma StartAlreadyRunning(files: Files, name: string, inputPath: string, alive: u32 -> bool,
                            canBind: u16 -> bool, launch: Option<string>)
    requires IsServerFile(name)
    ensures var res := StartPreview(files, name, inputPath, alive, canBind, launch);
      var record := ReadServerInfo(files, name);
      && (res.0.Ok? && res.0.value.AlreadyRunning? <==> record.Ok? && alive(record.value.pid))
      && (res.0.Ok? && res.0.value.AlreadyRunning? ==> res == (Ok(AlreadyRunning(record.value.port)), files))
  {
    hide ParseServerInfo, FormatServerInfo, CompanionPath, IsServerFile, IsCompanionFile, WithExtension, Trim, ParseUnsigned;
  }

  /**
   * A start that launches a server registers it: the record reads back as
   * the chosen port (the first free one) and the launcher's pid, the
   * companion holds the watched path, and every other entry is as before.
   */
  lemma StartRegisters(files: Files, name: string, inputPath: string, alive: u32 -> bool,
                       canBind: u16 -> bool, launch: Option<string>)
    requires IsServerFile(name)
    ensures var res := StartPreview(files, name, inputPath, alive, canBind, launch);
        res.0.Ok? && res.0.value.Launched? ==>
        && ReadServerInfo(res.1, name) == Ok(ServerInfo(res.0.value.port, res.0.value.pid))
        && CompanionPath(name) in res.1 && res.1[CompanionPath(name)] == inputPath
        && Forget(res.1, name) == Forget(files, name)
        && FirstFreePort(canBind, PORT_FIRST) == Some(res.0.value.port)
        && LaunchedPid(launch) == Ok(res.0.value.pid)
  {
    CompanionOfRecord(name);
    hide ParseServerInfo, FormatServerInfo, CompanionPath, IsServerFile, IsCompanionFile, WithExtension, Trim, ParseUnsigned;
    var record := ReadServerInfo(files, name);
    if !(record.Ok? && alive(record.value.pid)) && FirstFreePort(canBind, PORT_FIRST).Some? && LaunchedPid(launch).Ok? {
      var healed := if record.Ok? then Forget(files, name) else files;
      var port, pid := FirstFreePort(canBind, PORT_FIRST).value, LaunchedPid(launch).value;
      assert StartPreview(files, name, inputPath, alive, canBind, launch)
        == (Ok(Launched(port, pid)), Registered(healed, name, port, pid, inputPath));
      RegisteredRecord(healed, name, port, pid, inputPath);
      ForgetTwice(files, name);
    }
  }

  /**
   * A start that fails writes nothing: the registry is as before, except
   * that the record of a dead server may have been cleared with its
   * companion. It fails for want of a port exactly when no port binds.
   */
  lemma StartFailureWritesNothing(files: Files, name: string, inputPath: string, alive: u32 -> bool,
                                  canBind: u16 -> bool, launch: Option<string>)
    requires IsServerFile(name)
    ensures var res := StartPreview(files, name, inputPath, alive, canBind, launch);
      var record := ReadServerInfo(files, name);
      && (res.0.Err? ==> res.1 == (if record.Ok? then Forget(files, name) else files))
      && (res.0 == Err(NoAvailablePort) <==>
            !(record.Ok? && alive(record.value.pid)) && forall p: u16 :: PORT_FIRST <= p < PORT_END ==> !canBind(p))
  {
    hide ParseServerInfo, FormatServerInfo, CompanionPath, IsServerFile, IsCompanionFile, WithExtension, Trim, ParseUnsigned;
    FirstFreePortIsLeast(canBind, PORT_FIRST);
  }

  /** The registry with the record of (port, pid) written and its companion naming `inputPath`. */
  function Registered(files: Files, name: string, port: u16, pid: u32, inputPath: string): Files {
    files[name := FormatServerInfo(port, pid)][CompanionPath(name) := inputPath]
  }

  /** Writing a record and its companion: the record reads back, and nothing else changes. */
  lemma RegisteredRecord(files: Files, name: string, port: u16, pid: u32, inputPath: string)
    requires CompanionPath(name) != name
    ensures ReadServerInfo(Registered(files, name, port, pid, inputPath), name) == Ok(ServerInfo(port, pid))
    ensures CompanionPath(name) in Registered(files, name, port, pid, inputPath)
    ensures Registered(files, name, port, pid, inputPath)[CompanionPath(name)] == inputPath
    ensures Forget(Registered(files, name, port, pid, inputPath), name) == Forget(files, name)
  {
    RegisteredReadsBack(files, name, port, pid, inputPath);
    RegisteredFrame(files, name, port, pid, inputPath);
  }

  lemma RegisteredReadsBack(files: Files, name: string, port: u16, pid: u32, inputPath: string)
    requires CompanionPath(name) != name
    ensures ReadServerInfo(Registered(files, name, port, pid, inputPath), name) == Ok(ServerInfo(port, pid))
  {
    hide ParseServerInfo, FormatServerInfo;
    FormatParses(port, pid);
  }

  lemma RegisteredFrame(files: Files, name: string, port: u16, pid: u32, inputPath: string)
    requires CompanionPath(name) != name
    ensures CompanionPath(name) in Registered(files, name, port, pid, inputPath)
    ensures Registered(files, name, port, pid, inputPath)[CompanionPath(name)] == inputPath
    ensures Forget(Registered(files, name, port, pid, inputPath), name) == Forget(files, name)
  {
    hide ParseServerInfo, FormatServerInfo;
  }

  /**
   * `start_preview_server` on the registry directory: the record of the file
   * is the one named by the digest of its path.
   */
  method StartPreviewServer(dir: ServerDir, md5: Digest, inputPath: string, alive: u32 -> bool,
                            canBind: u16 -> bool, launch: Option<string>)
    returns (r: Result<StartOutcome, StartError>)
    modifies dir
    ensures (r, dir.files) == StartPreview(old(dir.files), ServerInfoPath(md5, inputPath), inputPath, alive, canBind, launch)
  {
    var name := ServerInfoPath(md5, inputPath);
    r := StartWithRecord(dir, name, inputPath, alive, canBind, launch);
  }

  /**
   * The steps of `start_preview_server` once the record name is known, in
   * the order the source performs them.
   */
  method StartWithRecord(dir: ServerDir, name: string, inputPath: string, alive: u32 -> bool,
                         canBind: u16 -> bool, launch: Option<string>)
    returns (r: Result<StartOutcome, StartError>)
    requires IsServerFile(name)
    modifies dir
    ensures (r, dir.files) == StartPreview(old(dir.files), name, inputPath, alive, canBind, launch)
  {
    hide ParseServerInfo, FormatServerInfo, CompanionPath, Extension, Trim, ParseUnsigned, FirstFreePort;
    ghost var spec := StartPreview(dir.files, name, inputPath, alive, canBind, launch);
    var record := ReadServerInfo(dir.files, name);
    if name in dir.files {
      if record.Ok? {
        if alive(record.value.pid) {
          return Ok(AlreadyRunning(record.value.port));
        }
        dir.RemoveFile(name);
        var companion := CompanionPath(name);
        if companion in dir.files {
          dir.RemoveFile(companion);
        }
        assert dir.files == Forget(old(dir.files), name);
      }
    }
    assert !(record.Ok? && alive(record.value.pid));
    assert dir.files == if record.Ok? then Forget(old(dir.files), name) else old(dir.files);
    ghost var healed := dir.files;
    var port := FindAvailablePort(canBind);
    if port.None? {
      assert spec == (Err(NoAvailablePort), healed);
      return Err(NoAvailablePort);
    }
    var pid := LaunchedPid(launch);
    if pid.Err? {
      assert spec == (Err(pid.error), healed);
      return Err(pid.error);
    }
    dir.WriteServerInfo(name, port.value, pid.value);
    dir.SaveFilePathInServerInfo(name, inputPath);
    assert dir.files == Registered(healed, name, port.value, pid.value, inputPath);
    r := Ok(Launched(port.value, pid.value));
  }

  /** A start that launches a server and a later start while that server lives: the second one finds it. */
  lemma StartIsIdempotent(files: Files, name: string, inputPath: string, alive: u32 -> bool,
                          canBind: u16 -> bool, launch: Option<string>,
                          alive2: u32 -> bool, canBind2: u16 -> bool, launch2: Option<string>)
    requires IsServerFile(name)
    ensures var first := StartPreview(files, name, inputPath, alive, canBind, launch);
      first.0.Ok? && first.0.value.Launched? && alive2(first.0.value.pid) ==>
        StartPreview(first.1, name, inputPath, alive2, canBind2, launch2) == (Ok(AlreadyRunning(first.0.value.port)), first.1)
  {
    hide ParseServerInfo, FormatServerInfo, CompanionPath, IsServerFile, IsCompanionFile, WithExtension, Trim, ParseUnsigned;
    StartRegisters(files, name, inputPath, alive, canBind, launch);
    var first := StartPreview(files, name, inputPath, alive, canBind, launch);
    StartAlreadyRunning(first.1, name, inputPath, alive2, canBind2, launch2);
  }

  // ---------------------------------------------------------------------------
  // stop_preview_server

  datatype StopOutcome = Stopped(port: u16, pid: u32, wasRunning: bool)

  datatype StopError =
    | NoServer                         // the file has no record
    | CorruptRecord(cause: InfoError)  // the record does not parse
    | KillFailed(pid: u32)             // the process is alive and terminating it failed

  /**
   * `stop_preview_server` as a function of the registry before the call: the
   * outcome and the registry after it. The record must exist and parse, and
   * a live process must be terminated, before the record and its companion
   * are deleted; each failure returns at once and deletes nothing.
   */
  function StopPreview(files: Files, name: string, alive: u32 -> bool, killOk: u32 -> bool)
    : (Result<StopOutcome, StopError>, Files)
  {
    if name !in files then (Err(NoServer), files)
    else match ReadServerInfo(files, name)
      case Err(e) => (Err(CorruptRecord(e)), files)
      case Ok(info) =>
        if alive(info.pid) && !killOk(info.pid) then (Err(KillFailed(info.pid)), files)
        else (Ok(Stopped(info.port, info.pid, alive(info.pid))), Forget(files, name))
  }

  /**
   * A stop fails for want of a server exactly when there is no record; it
   * succeeds exactly when the record reads and its process, if alive, could
   * be terminated; a failed stop changes nothing, and a successful one
   * removes the record and its companion and reports what the record held.
   */
  lemma StopOutcomes(files: Files, name: string, alive: u32 -> bool, killOk: u32 -> bool)
    ensures var res := StopPreview(files, name, alive, killOk);
      var record := ReadServerInfo(files, name);
      && (res.0 == Err(NoServer) <==> name !in files)
      && (res.0.Ok? <==> record.Ok? && (alive(record.value.pid) ==> killOk(record.value.pid)))
      && (res.0.Err? ==> res.1 == files)
      && (res.0.Ok? ==> res.0.value == Stopped(record.value.port, record.value.pid, alive(record.value.pid)))
      && (res.0.Ok? ==> res.1 == Forget(files, name) && name !in res.1 && CompanionPath(name) !in res.1)
  {
    hide ParseServerInfo, FormatServerInfo, CompanionPath, IsServerFile, IsCompanionFile, WithExtension, Trim, ParseUnsigned;
  }

  /** After a successful stop there is nothing left to stop. */
  lemma StopTwice(files: Files, name: string, alive: u32 -> bool, killOk: u32 -> bool,
                  alive2: u32 -> bool, killOk2: u32 -> bool)
    ensures var first := StopPreview(files, name, alive, killOk);
      first.0.Ok? ==> StopPreview(first.1, name, alive2, killOk2) == (Err(NoServer), first.1)
  {
    hide ParseServerInfo, FormatServerInfo, CompanionPath, IsServerFile, IsCompanionFile, WithExtension, Trim, ParseUnsigned;
    StopOutcomes(files, name, alive, killOk);
  }

  /**
   * Stopping the server a start launched, when its process is gone or can
   * be terminated, reports that start's port and pid and leaves the
   * registry as the start found it, less any stale record of the file.
   */
  lemma StartThenStop(files: Files, name: string, inputPath: string, alive: u32 -> bool,
                      canBind: u16 -> bool, launch: Option<string>, alive2: u32 -> bool, killOk2: u32 -> bool)
    requires IsServerFile(name)
    ensures var start := StartPreview(files, name, inputPath, alive, canBind, launch);
      start.0.Ok? && start.0.value.Launched? && (alive2(start.0.value.pid) ==> killOk2(start.0.value.pid)) ==>
        StopPreview(start.1, name, alive2, killOk2)
          == (Ok(Stopped(start.0.value.port, start.0.value.pid, alive2(start.0.value.pid))), Forget(files, name))
  {
    hide ParseServerInfo, FormatServerInfo, CompanionPath, IsServerFile, IsCompanionFile, WithExtension, Trim, ParseUnsigned;
    StartRegisters(files, name, inputPath, alive, canBind, launch);
  }

  /** `stop_preview_server` on the registry directory. */
  method StopPreviewServer(dir: ServerDir, md5: Digest, inputPath: string, alive: u32 -> bool, killOk: u32 -> bool)
    returns (r: Result<StopOutcome, StopError>)
    modifies dir
    ensures (r, dir.files) == StopPreview(old(dir.files), ServerInfoPath(md5, inputPath), alive, killOk)
  {
    var name := ServerInfoPath(md5, inputPath);
    r := StopWithRecord(dir, name, alive, killOk);
  }

  /** The steps of `stop_preview_server` once the record name is known. */
  method StopWithRecord(dir: ServerDir, name: string, alive: u32 -> bool, killOk: u32 -> bool)
    returns (r: Result<StopOutcome, StopError>)
    modifies dir
    ensures (r, dir.files) == StopPreview(old(dir.files), name, alive, killOk)
  {
    hide ParseServerInfo, FormatServerInfo, CompanionPath, Extension, Trim, ParseUnsigned;
    if name !in dir.files {
      return Err(NoServer);
    }
    var record := ReadServerInfo(dir.files, name);
    if record.Err? {
      return Err(CorruptRecord(record.error));
    }
    var info := record.value;
    var running := alive(info.pid);
    if running && !killOk(info.pid) {
      return Err(KillFailed(info.pid));
    }
    dir.RemoveFile(name);
    var companion := CompanionPath(name);
    if companion in dir.files {
      dir.RemoveFile(companion);
    }
    assert dir.files == Forget(old(dir.files), name);
    r := Ok(Stopped(info.port, info.pid, running));
  }

  // ---------------------------------------------------------------------------
  // kill_all_servers

  /** The `.server` entries among `names` that read as records: the ones `kill_all_servers` acts on. */
  function Records(files: Files, names: set<string>): (recs: set<string>)
    ensures recs <= names
  {
    set n | n in names && IsServerFile(n) && ReadServerInfo(files, n).Ok?
  }

  /** The records among `names` whose process was alive and terminated without error. */
  function Terminated(files: Files, names: set<string>, alive: u32 -> bool, killOk: u32 -> bool): (dead: set<string>)
    ensures dead <= Records(files, names)
  {
    set n | n in Records(files, names) && alive(ReadServerInfo(files, n).value.pid)
                                         && killOk(ReadServerInfo(files, n).value.pid)
  }

  /** The entries deleted on account of `names`: each record and its companion. */
  function Swept(files: Files, names: set<string>): set<string> {
    Records(files, names) + set n | n in Records(files, names) :: CompanionPath(n)
  }

  /**
   * `kill_all_servers` as a function of the registry: how many servers it
   * terminated, and the registry it leaves.
   */
  function KillAll(files: Files, alive: u32 -> bool, killOk: u32 -> bool): (nat, Files) {
    (|Terminated(files, files.Keys, alive, killOk)|, files - Swept(files, files.Keys))
  }

  /** A `.server` name is never a companion, so sweeping other records never touches it. */
  lemma SweptServerFile(files: Files, names: set<string>, e: string)
    requires IsServerFile(e) && e !in Records(files, names)
    ensures e !in Swept(files, names)
  {
    hide ParseServerInfo, FormatServerInfo, Trim, ParseUnsigned;
    if e in Swept(files, names) {
      var n :| n in Records(files, names) && CompanionPath(n) == e;
      CompanionOfRecord(n);
      assert false;
    }
  }

  /** Before any entry is visited nothing is swept or counted. */
  lemma KillAllNone(files: Files, alive: u32 -> bool, killOk: u32 -> bool)
    ensures Swept(files, {}) == {} && Terminated(files, {}, alive, killOk) == {}
  {
  }

  /** Whether one entry is swept, and whether it is counted, is decided by that entry alone. */
  lemma KillAllEntry(files: Files, e: string, alive: u32 -> bool, killOk: u32 -> bool)
    ensures e in Records(files, {e}) <==> IsServerFile(e) && ReadServerInfo(files, e).Ok?
    ensures e in Terminated(files, {e}, alive, killOk) <==>
      e in Records(files, {e}) && alive(ReadServerInfo(files, e).value.pid) && killOk(ReadServerInfo(files, e).value.pid)
  {
    hide ParseServerInfo, FormatServerInfo, Trim, ParseUnsigned, CompanionPath, IsServerFile;
  }

  /** A record not yet visited reads in the partly swept registry as it did at the start. */
  lemma KillAllStepRead(files: Files, names: set<string>, e: string)
    requires e !in names && IsServerFile(e)
    ensures ReadServerInfo(files - Swept(files, names), e) == ReadServerInfo(files, e)
  {
    hide ParseServerInfo, FormatServerInfo, Trim, ParseUnsigned, CompanionPath, IsServerFile, Records;
    SweptServerFile(files, names, e);
  }

  /** One more entry: a record is swept with its companion; any other entry changes nothing. */
  lemma KillAllStepSwept(files: Files, names: set<string>, e: string)
    requires e !in names
    ensures e !in Records(files, {e}) ==> Swept(files, names + {e}) == Swept(files, names)
    ensures e in Records(files, {e}) ==> files - Swept(files, names + {e}) == Forget(files - Swept(files, names), e)
  {
    hide ParseServerInfo, FormatServerInfo, Trim, ParseUnsigned, CompanionPath, IsServerFile;
    assert Records(files, names + {e}) == Records(files, names) + Records(files, {e});
    if e in Records(files, {e}) {
      assert Records(files, {e}) == {e};
      assert Swept(files, names + {e}) == Swept(files, names) + {e, CompanionPath(e)};
    }
  }

  /** One more entry adds one to the count exactly when it is a record whose process was terminated. */
  lemma KillAllStepCount(files: Files, names: set<string>, e: string, alive: u32 -> bool, killOk: u32 -> bool)
    requires e !in names
    ensures |Terminated(files, names + {e}, alive, killOk)| == |Terminated(files, names, alive, killOk)|
      + (if e in Terminated(files, {e}, alive, killOk) then 1 else 0)
  {
    hide ParseServerInfo, FormatServerInfo, Trim, ParseUnsigned, CompanionPath, IsServerFile;
    var dead := Terminated(files, names, alive, killOk);
    assert Terminated(files, names + {e}, alive, killOk) == dead + Terminated(files, {e}, alive, killOk);
    if e in Terminated(files, {e}, alive, killOk) {
      assert Terminated(files, {e}, alive, killOk) == {e};
      assert e !in dead;
    } else {
      assert Terminated(files, {e}, alive, killOk) == {};
      assert dead + {} == dead;
    }
  }

  /**
   * The body of the loop of `kill_all_servers` for one entry: a `.server`
   * file that reads as a record has its process terminated if alive, and
   * is removed with its companion whatever the outcome; whether the process
   * was terminated is returned. Any other entry is left alone.
   */
  method SweepEntry(dir: ServerDir, e: string, alive: u32 -> bool, killOk: u32 -> bool) returns (terminated: bool)
    modifies dir
    ensures var record := ReadServerInfo(old(dir.files), e);
      && dir.files == (if IsServerFile(e) && record.Ok? then Forget(old(dir.files), e) else old(dir.files))
      && (terminated <==> IsServerFile(e) && record.Ok? && alive(record.value.pid) && killOk(record.value.pid))
  {
    hide ParseServerInfo, FormatServerInfo, CompanionPath, Extension, Trim, ParseUnsigned;
    terminated := false;
    if IsServerFile(e) {
      var record := ReadServerInfo(dir.files, e);
      if record.Ok? {
        var pid := record.value.pid;
        if alive(pid) && killOk(pid) {
          terminated := true;
        }
        dir.RemoveFile(e);
        var companion := CompanionPath(e);
        if companion in dir.files {
          dir.RemoveFile(companion);
        }
        assert dir.files == Forget(old(dir.files), e);
      }
    }
  }

  /**
   * `kill_all_servers` over the directory listing `entries`, one entry after
   * another in the order the listing gives them. The listing names every
   * entry of the registry once, so the outcome is the same in every order.
   */
  method KillAllServers(dir: ServerDir, entries: seq<string>, alive: u32 -> bool, killOk: u32 -> bool)
    returns (count: nat)
    requires forall i, j :: 0 <= i < j < |entries| ==> entries[i] != entries[j]
    requires forall n :: n in dir.files <==> n in entries
    modifies dir
    ensures (count, dir.files) == KillAll(old(dir.files), alive, killOk)
  {
    hide ParseServerInfo, FormatServerInfo, CompanionPath, Extension, Trim, ParseUnsigned, Records, Terminated, Swept;
    ghost var files := dir.files;
    ghost var seen: set<string> := {};
    KillAllNone(files, alive, killOk);
    count := 0;
    for i := 0 to |entries|
      invariant seen == set j | 0 <= j < i :: entries[j]
      invariant count == |Terminated(files, seen, alive, killOk)|
      invariant dir.files == files - Swept(files, seen)
    {
      var e := entries[i];
      KillAllEntry(files, e, alive, killOk);
      KillAllStepSwept(files, seen, e);
      KillAllStepCount(files, seen, e, alive, killOk);
      if IsServerFile(e) {
        KillAllStepRead(files, seen, e);
      }
      var terminated := SweepEntry(dir, e, alive, killOk);
      if terminated {
        count := count + 1;
      }
      seen := seen + {e};
    }
    assert seen == files.Keys;
  }

  /** A name that is neither a record nor a companion is never swept. */
  lemma SweptOther(files: Files, names: set<string>, e: string)
    requires !IsServerFile(e) && !IsCompanionFile(e)
    ensures e !in Swept(files, names)
  {
    hide ParseServerInfo, FormatServerInfo, Trim, ParseUnsigned;
    if e in Swept(files, names) {
      var n :| n in Records(files, names) && CompanionPath(n) == e;
      CompanionOfRecord(n);
      assert false;
    }
  }

  /**
   * What `kill_all_servers` leaves: only entries it found, unchanged; every
   * `.server` file that does not read as a record stays, and so does every
   * file that is neither a record nor a companion.
   */
  lemma KillAllKeeps(files: Files, alive: u32 -> bool, killOk: u32 -> bool)
    ensures var after := KillAll(files, alive, killOk).1;
      && (forall n :: n in after ==> n in files && after[n] == files[n])
      && (forall n :: n in files && IsServerFile(n) && ReadServerInfo(files, n).Err? ==> n in after)
      && (forall n :: n in files && !IsServerFile(n) && !IsCompanionFile(n) ==> n in after)
  {
    hide ParseServerInfo, FormatServerInfo, Trim, ParseUnsigned, CompanionPath, IsServerFile, IsCompanionFile;
    forall n | n in files && IsServerFile(n) && ReadServerInfo(files, n).Err?
      ensures n !in Swept(files, files.Keys)
    {
      SweptServerFile(files, files.Keys, n);
    }
    forall n | n in files && !IsServerFile(n) && !IsCompanionFile(n)
      ensures n !in Swept(files, files.Keys)
    {
      SweptOther(files, files.Keys, n);
    }
  }

  /**
   * What `kill_all_servers` removes: every record that reads, together with
   * its companion, so no readable record is left behind.
   */
  lemma KillAllRemoves(files: Files, alive: u32 -> bool, killOk: u32 -> bool)
    ensures var after := KillAll(files, alive, killOk).1;
      && (forall n :: IsServerFile(n) && ReadServerInfo(files, n).Ok? ==> n !in after && CompanionPath(n) !in after)
      && (forall n :: n in after && IsServerFile(n) ==> ReadServerInfo(after, n).Err?)
  {
    hide ParseServerInfo, FormatServerInfo, Trim, ParseUnsigned, CompanionPath, IsServerFile, IsCompanionFile;
    var after := KillAll(files, alive, killOk).1;
    forall n | IsServerFile(n) && ReadServerInfo(files, n).Ok?
      ensures n !in after && CompanionPath(n) !in after
    {
      assert n in Records(files, files.Keys);
    }
    forall n | n in after && IsServerFile(n)
      ensures ReadServerInfo(after, n).Err?
    {
      assert n !in Records(files, files.Keys);
    }
  }

  /** Only records that read are counted, so the count is at most their number. */
  lemma KillAllCount(files: Files, alive: u32 -> bool, killOk: u32 -> bool)
    ensures KillAll(files, alive, killOk).0 <= |Records(files, files.Keys)|
    ensures (forall n :: n in files && IsServerFile(n) ==> ReadServerInfo(files, n).Err?) ==> KillAll(files, alive, killOk).0 == 0
  {
    hide ParseServerInfo, FormatServerInfo, Trim, ParseUnsigned, CompanionPath, IsServerFile, IsCompanionFile;
    SubsetCard(Terminated(files, files.Keys, alive, killOk), Records(files, files.Keys));
    if forall n :: n in files && IsServerFile(n) ==> ReadServerInfo(files, n).Err? {
      assert Records(files, files.Keys) == {};
    }
  }

  lemma {:induction false} SubsetCard<T>(a: set<T>, b: set<T>)
    requires a <= b
    ensures |a| <= |b|
    decreases |b|
  {
    if a != {} {
      var x :| x in a;
      SubsetCard(a - {x}, b - {x});
    }
  }

  /** A second `kill_all_servers` finds nothing to terminate and changes nothing. */
  lemma KillAllIdempotent(files: Files, alive: u32 -> bool, killOk: u32 -> bool, alive2: u32 -> bool, killOk2: u32 -> bool)
    ensures var after := KillAll(files, alive, killOk).1;
      KillAll(after, alive2, killOk2) == (0, after)
  {
    hide ParseServerInfo, FormatServerInfo, Trim, ParseUnsigned, CompanionPath, IsServerFile, IsCompanionFile;
    var after := KillAll(files, alive, killOk).1;
    KillAllRemoves(files, alive, killOk);
    assert Records(after, after.Keys) == {};
    assert Swept(after, after.Keys) == {};
    assert after - {} == after;
  }

  // ---------------------------------------------------------------------------
  // the pairing of records and companions

  /** Removing a record together with its companion keeps the registry paired. */
  lemma PairedForget(files: Files, name: string)
    requires Paired(files) && IsServerFile(name)
    ensures Paired(Forget(files, name))
  {
    RecordsAreNotCompanions();
    hide ParseServerInfo, FormatServerInfo, Trim, ParseUnsigned, CompanionPath, WithExtension, Extension, IsServerFile, IsCompanionFile;
    var after := Forget(files, name);
    CompanionOfRecord(name);
    forall n | n in after && IsServerFile(n)
      ensures CompanionPath(n) in after
    {
      CompanionOfRecord(n);
      if CompanionPath(n) == CompanionPath(name) {
        CompanionInjective(n, name);
      }
    }
    forall n | n in after && IsCompanionFile(n)
      ensures WithExtension(n, SERVER_EXT) in after
    {
      RecordOfCompanion(n);
    }
  }

  /** Writing a record together with its companion keeps the registry paired. */
  lemma PairedRegistered(files: Files, name: string, port: u16, pid: u32, inputPath: string)
    requires Paired(files) && IsServerFile(name)
    ensures Paired(Registered(files, name, port, pid, inputPath))
  {
    RecordsAreNotCompanions();
    hide ParseServerInfo, FormatServerInfo, Trim, ParseUnsigned, CompanionPath, WithExtension, Extension, IsServerFile, IsCompanionFile;
    var after := Registered(files, name, port, pid, inputPath);
    CompanionOfRecord(name);
    forall n | n in after && IsServerFile(n)
      ensures CompanionPath(n) in after
    {
      CompanionOfRecord(n);
    }
    forall n | n in after && IsCompanionFile(n)
      ensures WithExtension(n, SERVER_EXT) in after
    {
      RecordOfCompanion(n);
    }
  }

  /** A start keeps the registry paired. */
  lemma StartKeepsPaired(files: Files, name: string, inputPath: string, alive: u32 -> bool,
                         canBind: u16 -> bool, launch: Option<string>)
    requires Paired(files) && IsServerFile(name)
    ensures Paired(StartPreview(files, name, inputPath, alive, canBind, launch).1)
  {
    hide ParseServerInfo, FormatServerInfo, CompanionPath, IsServerFile, IsCompanionFile, WithExtension, Trim, ParseUnsigned, Paired, Registered, Forget;
    var record := ReadServerInfo(files, name);
    var healed := if record.Ok? then Forget(files, name) else files;
    if record.Ok? {
      PairedForget(files, name);
    }
    match FirstFreePort(canBind, PORT_FIRST)
    case None =>
    case Some(port) =>
      match LaunchedPid(launch)
      case Err(_) =>
      case Ok(pid) => PairedRegistered(healed, name, port, pid, inputPath);
  }

  /** A stop keeps the registry paired. */
  lemma StopKeepsPaired(files: Files, name: string, alive: u32 -> bool, killOk: u32 -> bool)
    requires Paired(files) && IsServerFile(name)
    ensures Paired(StopPreview(files, name, alive, killOk).1)
  {
    hide ParseServerInfo, FormatServerInfo, CompanionPath, IsServerFile, IsCompanionFile, WithExtension, Trim, ParseUnsigned, Paired, Forget;
    PairedForget(files, name);
  }

  /** `kill_all_servers` keeps the registry paired: a record and its companion go together or stay together. */
  lemma KillAllKeepsPaired(files: Files, alive: u32 -> bool, killOk: u32 -> bool)
    requires Paired(files)
    ensures Paired(KillAll(files, alive, killOk).1)
  {
    RecordsAreNotCompanions();
    hide ParseServerInfo, FormatServerInfo, Trim, ParseUnsigned, CompanionPath, WithExtension, Extension, IsCompanionFile;
    var recs := Records(files, files.Keys);
    var after := KillAll(files, alive, killOk).1;
    forall n | n in after && IsServerFile(n)
      ensures CompanionPath(n) in after
    {
      CompanionOfRecord(n);
      if CompanionPath(n) in Swept(files, files.Keys) {
        var m :| m in recs && CompanionPath(m) == CompanionPath(n);
        CompanionInjective(m, n);
      }
    }
    forall n | n in after && IsCompanionFile(n)
      ensures WithExtension(n, SERVER_EXT) in after
    {
      RecordOfCompanion(n);
      SweptCompanion(files, files.Keys, n);
      SweptServerFile(files, files.Keys, WithExtension(n, SERVER_EXT));
    }
  }

  /** A companion is swept exactly when its own record is. */
  lemma SweptCompanion(files: Files, names: set<string>, c: string)
    requires IsCompanionFile(c)
    ensures c in Swept(files, names) <==> WithExtension(c, SERVER_EXT) in Records(files, names)
  {
    RecordsAreNotCompanions();
    RecordOfCompanion(c);
    hide ParseServerInfo, FormatServerInfo, Trim, ParseUnsigned, CompanionPath, WithExtension, Extension, IsServerFile, IsCompanionFile;
    var w := WithExtension(c, SERVER_EXT);
    if w in Records(files, names) {
      assert c == CompanionPath(w);
    }
    if c in Swept(files, names) {
      assert c !in Records(files, names);
      var m :| m in Records(files, names) && CompanionPath(m) == c;
      CompanionOfRecord(m);
    }
  }

  // ---------------------------------------------------------------------------
  // handle_ws_connection: the refresh task

  /**
   * What the refresh task of one WebSocket connection has done: the indices
   * of the observed values for which it sent "refresh", the value it last
   * saw (`last_seen`), and the index at which a send failed and ended the
   * task, if one did.
   */
  datatype WsState = WsState(sent: seq<nat>, lastSeen: string, closedAt: Option<nat>)

  /**
   * One wake-up of the task, for the value `current` observed as the `i`-th
   * change notification: a value equal to `last_seen` is ignored; a new one
   * is announced, and becomes `last_seen` only once the send succeeds.
   */
  function WsStep(st: WsState, i: nat, current: string, sendOk: nat -> bool): WsState {
    if st.closedAt.Some? || current == st.lastSeen then st
    else if !sendOk(i) then st.(closedAt := Some(i))
    else st.(sent := st.sent + [i], lastSeen := current)
  }

  /**
   * The task after the values `observed` were seen in turn, starting from
   * the value current when the client connected. `sendOk(i)` tells whether
   * the send attempted at the `i`-th notification is accepted by the
   * in-process channel to the forwarding task; acceptance says nothing
   * about delivery to the client.
   */
  function WsRun(initial: string, observed: seq<string>, sendOk: nat -> bool): WsState
    decreases |observed|
  {
    if observed == [] then WsState([], initial, None)
    else WsStep(WsRun(initial, observed[..|observed| - 1], sendOk), |observed| - 1, observed[|observed| - 1], sendOk)
  }

  /** The most recent of the values, or the initial one if there are none yet. */
  function Latest(initial: string, values: seq<string>): string {
    if values == [] then initial else values[|values| - 1]
  }

  /** Once a send has failed, later notifications change nothing. */
  lemma {:induction false} WsClosedStays(initial: string, observed: seq<string>, sendOk: nat -> bool, k: nat)
    requires k <= |observed| && WsRun(initial, observed[..k], sendOk).closedAt.Some?
    ensures WsRun(initial, observed, sendOk) == WsRun(initial, observed[..k], sendOk)
    decreases |observed|
  {
    if k < |observed| {
      var prefix := observed[..|observed| - 1];
      assert prefix[..k] == observed[..k];
      WsClosedStays(initial, prefix, sendOk, k);
    } else {
      assert observed[..k] == observed;
    }
  }

  /**
   * `handle_ws_connection`'s refresh task: `last_seen` starts as the value
   * current at connection time; each notification whose value differs from
   * `last_seen` sends "refresh", and a failed send (the client is gone)
   * ends the loop. The loop also ends when the notifications end.
   */
  method HandleWsConnection(initial: string, observed: seq<string>, sendOk: nat -> bool) returns (st: WsState)
    ensures st == WsRun(initial, observed, sendOk)
  {
    var lastSeen := initial;
    var sent: seq<nat> := [];
    var i := 0;
    while i < |observed|
      invariant 0 <= i <= |observed|
      invariant WsRun(initial, observed[..i], sendOk) == WsState(sent, lastSeen, None)
    {
      var current := observed[i];
      assert observed[..i + 1][..i] == observed[..i];
      if current != lastSeen {
        if !sendOk(i) {
          WsClosedStays(initial, observed, sendOk, i + 1);
          return WsState(sent, lastSeen, Some(i));
        }
        sent := sent + [i];
        lastSeen := current;
      }
      i := i + 1;
    }
    assert observed[..i] == observed;
    return WsState(sent, lastSeen, None);
  }

  /** The `j`-th observed value differs from the one before it (or from the initial value). */
  predicate Changed(initial: string, observed: seq<string>, j: nat)
    requires j < |observed|
  {
    observed[j] != Latest(initial, observed[..j])
  }

  /** Where the task stopped reading notifications: at a failed send, or at the end. */
  function WsEnd(st: WsState, observed: seq<string>): nat {
    if st.closedAt.Some? then st.closedAt.value else |observed|
  }

  /** While the task runs, `last_seen` is the latest value observed. */
  lemma {:induction false} WsRunLastSeen(initial: string, observed: seq<string>, sendOk: nat -> bool)
    ensures WsRun(initial, observed, sendOk).closedAt.None? ==> WsRun(initial, observed, sendOk).lastSeen == Latest(initial, observed)
    decreases |observed|
  {
    if observed != [] {
      WsRunLastSeen(initial, observed[..|observed| - 1], sendOk);
    }
  }

  /**
   * The sends happen in order, all before the task ends, and each of them
   * succeeded; a task that ended did so at a failed send.
   */
  lemma {:induction false} WsRunOrder(initial: string, observed: seq<string>, sendOk: nat -> bool)
    ensures var st := WsRun(initial, observed, sendOk);
      && WsEnd(st, observed) <= |observed|
      && (forall a, b :: 0 <= a < b < |st.sent| ==> st.sent[a] < st.sent[b])
      && (forall a :: 0 <= a < |st.sent| ==> st.sent[a] < WsEnd(st, observed) && sendOk(st.sent[a]))
      && (st.closedAt.Some? ==> !sendOk(st.closedAt.value))
    decreases |observed|
  {
    if observed != [] {
      WsRunOrder(initial, observed[..|observed| - 1], sendOk);
    }
  }

  /**
   * Up to where the task ended, "refresh" was sent for exactly the
   * notifications whose value changed, and a failed send was for a change.
   */
  lemma {:induction false} WsRunChanged(initial: string, observed: seq<string>, sendOk: nat -> bool)
    ensures var st := WsRun(initial, observed, sendOk);
      && (forall j :: j in st.sent <==> 0 <= j < WsEnd(st, observed) && j < |observed| && Changed(initial, observed, j))
      && (st.closedAt.Some? ==> st.closedAt.value < |observed| && Changed(initial, observed, st.closedAt.value))
    decreases |observed|
  {
    if observed != [] {
      var n := |observed| - 1;
      var prefix := observed[..n];
      WsRunChanged(initial, prefix, sendOk);
      WsRunLastSeen(initial, prefix, sendOk);
      WsRunOrder(initial, prefix, sendOk);
      forall j | 0 <= j < n
        ensures Changed(initial, prefix, j) == Changed(initial, observed, j)
      {
        assert prefix[..j] == observed[..j];
      }
    }
  }

  /**
   * The refresh task, described without its loop: up to the notification
   * where a send failed (or to the end), "refresh" is sent, in order, for
   * exactly the notifications whose value differs from the one before it;
   * a failed send is one of those; and while the task runs, `last_seen` is
   * the latest value observed.
   */
  lemma WsRunSends(initial: string, observed: seq<string>, sendOk: nat -> bool)
    ensures var st := WsRun(initial, observed, sendOk);
      var k := WsEnd(st, observed);
      && k <= |observed|
      && (forall j :: j in st.sent <==> 0 <= j < k && Changed(initial, observed, j))
      && (forall a, b :: 0 <= a < b < |st.sent| ==> st.sent[a] < st.sent[b])
      && (forall j :: j in st.sent ==> sendOk(j))
      && (st.closedAt.None? ==> st.lastSeen == Latest(initial, observed))
      && (st.closedAt.Some? ==> k < |observed| && !sendOk(k) && Changed(initial, observed, k))
  {
    WsRunLastSeen(initial, observed, sendOk);
    WsRunOrder(initial, observed, sendOk);
    WsRunChanged(initial, observed, sendOk);
  }

  /**
   * No "refresh" is ever sent, and the task is still running, exactly when
   * every value observed equals the one current at connection time.
   */
  lemma WsNoRefresh(initial: string, observed: seq<string>, sendOk: nat -> bool)
    ensures var st := WsRun(initial, observed, sendOk);
      st.sent == [] && st.closedAt.None? <==> forall j :: 0 <= j < |observed| ==> observed[j] == initial
  {
    WsRunSends(initial, observed, sendOk);
    var st := WsRun(initial, observed, sendOk);
    if st.sent == [] && st.closedAt.None? {
      LatestStaysInitial(initial, observed);
    } else if forall j :: 0 <= j < |observed| ==> observed[j] == initial {
      forall j | 0 <= j < |observed|
        ensures !Changed(initial, observed, j)
      {
      }
    }
  }

  /** If no value differs from the one before it, every value is the initial one. */
  lemma {:induction false} LatestStaysInitial(initial: string, observed: seq<string>)
    requires forall j :: 0 <= j < |observed| ==> !Changed(initial, observed, j)
    ensures forall j :: 0 <= j < |observed| ==> observed[j] == initial
  {
    var j := 0;
    while j < |observed|
      invariant 0 <= j <= |observed|
      invariant forall i :: 0 <= i < j ==> observed[i] == initial
    {
      assert !Changed(initial, observed, j);
      j := j + 1;
    }
  }

  // ---------------------------------------------------------------------------
  // the reload script

  const BODY_CLOSE := "</body>"

  /** The script element the page route splices in; it reloads the page on "refresh" and after a disconnect. */
  function ScriptElement(): string {
    @"
<script>
    // Connect to WebSocket server
    const socket = new WebSocket(`ws://${window.location.host}/ws`);
    
    // Handle messages from the server
    socket.onmessage = function(event) {
        if (event.data === 'refresh') {
            console.log('Refreshing page due to file change');
            window.location.reload();
        }
    };
    
    // Handle connection open
    socket.onopen = function() {
        console.log('WebSocket connected for live reload');
    };
    
    // Handle connection close
    socket.onclose = function() {
        console.log('WebSocket connection closed');
        // Try to reconnect after a delay
        setTimeout(() => {
            window.location.reload();
        }, 5000);
    };
    
    // Handle connection errors
    socket.onerror = function(error) {
        console.error('WebSocket error:', error);
    };
</script>
"
  }

  /** What every closing body tag is replaced with: the script, then the tag again. */
  function ReloadScript(): string {
    ScriptElement() + BODY_CLOSE + "\n"
  }

  /** `replace("</body>", replacement)`: every closing body tag, left to right, becomes `replacement`. */
  function ReplaceBodyClose(html: string, replacement: string): string {
    ReplaceAll(html, BODY_CLOSE, replacement)
  }

  /** The page route's `replace("</body>", script)` on the rendered document. */
  function InjectReloadScript(html: string): string {
    ReplaceBodyClose(html, ReloadScript())
  }

  /** A document without a closing body tag is served as it is: the script is not appended. */
  lemma InjectWithoutBodyClose(html: string)
    requires !Contains(html, BODY_CLOSE)
    ensures InjectReloadScript(html) == html
  {
    hide ScriptElement;
    ReplaceAllNoMatch(html, BODY_CLOSE, ReloadScript());
  }

  /**
   * In a document with a closing body tag, the first one becomes the
   * replacement, and the rest of the document is treated likewise.
   */
  lemma ReplaceBodyCloseFirst(html: string, replacement: string)
    requires Contains(html, BODY_CLOSE)
    ensures var i := Find(html, BODY_CLOSE).value;
      ReplaceBodyClose(html, replacement) == html[..i] + replacement + ReplaceBodyClose(html[i + |BODY_CLOSE|..], replacement)
  {
    ReplaceAllFirstMatch(html, BODY_CLOSE, replacement);
  }

  /** A document with a closing body tag is served with the script in it, and grows. */
  lemma InjectBeforeBodyClose(html: string)
    requires Contains(html, BODY_CLOSE)
    ensures Contains(InjectReloadScript(html), ReloadScript())
    ensures |InjectReloadScript(html)| > |html|
  {
    hide ScriptElement;
    ReplaceAllInserts(html, BODY_CLOSE, ReloadScript());
    ReplaceAllLength(html, BODY_CLOSE, ReloadScript());
  }

  /** The served page has a closing body tag exactly when the rendered document has one. */
  lemma InjectKeepsBodyClose(html: string)
    ensures Contains(InjectReloadScript(html), BODY_CLOSE) <==> Contains(html, BODY_CLOSE)
  {
    hide ScriptElement;
    if Contains(html, BODY_CLOSE) {
      ReplaceBodyCloseFirst(html, ReloadScript());
      var i := Find(html, BODY_CLOSE).value;
      var rest := InjectReloadScript(html[i + |BODY_CLOSE|..]);
      assert html[..i] + ReloadScript() + rest == (html[..i] + ScriptElement()) + BODY_CLOSE + ("\n" + rest);
      ContainsInfix(html[..i] + ScriptElement(), BODY_CLOSE, "\n" + rest);
    } else {
      InjectWithoutBodyClose(html);
    }
  }
}
