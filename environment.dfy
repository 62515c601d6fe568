/** The life cycle of a test environment: `__init__` creates a private
    temporary directory, writes the agent's configuration into it and
    launches the agent; `shutdown` stops the agent whose process ID is in
    the pid file and removes the directory. The file system and the process
    table are the state of a `Host`, which the environment changes. */
module TestEnvironment {
  import opened Text
  import opened ResponseClassifier

  /** The part of the machine the environment touches: directories, files
      with their contents, running processes, and the SIGTERMs sent so far.
      A path counts as readable (`os.access(path, os.R_OK)`) when it exists. */
  class Host {
    var dirs: set<string>
    var files: map<string, string>
    var live: set<int>
    var signalled: seq<int>

    constructor(dirs0: set<string>, files0: map<string, string>, live0: set<int>)
      ensures dirs == dirs0 && files == files0 && live == live0 && signalled == []
    {
      dirs := dirs0;
      files := files0;
      live := live0;
      signalled := [];
    }

    /** `tempfile.mkdtemp`: a new, empty directory. */
    method MakeDir(d: string)
      requires d !in dirs
      modifies this
      ensures dirs == old(dirs) + {d}
      ensures files == old(files) && live == old(live) && signalled == old(signalled)
    {
      dirs := dirs + {d};
    }

    /** Opening `path` for writing and writing `text` to it. */
    method WriteFile(path: string, text: string)
      modifies this
      ensures files == old(files)[path := text]
      ensures dirs == old(dirs) && live == old(live) && signalled == old(signalled)
    {
      files := files[path := text];
    }

    /** The agent daemon starting: it runs as `pid` and writes that number
        and a line break to its pid file. */
    method LaunchAgent(pidfile: string, pid: int)
      requires pid > 0 && pid !in live
      modifies this
      ensures files == old(files)[pidfile := Decimal(pid) + "\n"]
      ensures live == old(live) + {pid}
      ensures dirs == old(dirs) && signalled == old(signalled)
    {
      files := files[pidfile := Decimal(pid) + "\n"];
      live := live + {pid};
    }

    /** `os.kill(pid, signal.SIGTERM)`; whether and when the process
        exits is observed separately. */
    method Signal(pid: int)
      modifies this
      ensures signalled == old(signalled) + [pid]
      ensures dirs == old(dirs) && files == old(files) && live == old(live)
    {
      signalled := signalled + [pid];
    }

    /** One look at `/proc/<pid>`: the process has exited by now unless
        `running` says otherwise. */
    method Settle(pid: int, running: bool)
      modifies this
      ensures live == if running then old(live) else old(live) - {pid}
      ensures dirs == old(dirs) && files == old(files) && signalled == old(signalled)
    {
      if !running {
        live := live - {pid};
      }
    }

    /** `shutil.rmtree(d)`: `d` and everything below it disappear. */
    method RemoveTree(d: string)
      modifies this
      ensures dirs == set p | p in old(dirs) && !Under(p, d)
      ensures files == map p | p in old(files) && !Under(p, d) :: old(files)[p]
      ensures live == old(live) && signalled == old(signalled)
    {
      dirs := set p | p in dirs && !Under(p, d);
      files := map p | p in files && !Under(p, d) :: files[p];
    }
  }

  /** `p` is `d` itself or lies below it. */
  predicate Under(p: string, d: string) {
    p == d || (|d| < |p| && p[..|d| + 1] == d + "/")
  }

  /** `os.path.join(d, name)` for a relative `name`. */
  function PathJoin(d: string, name: string): (r: string)
    requires name != [] && name[0] != '/'
    ensures d != [] && d[|d| - 1] != '/' ==> r == d + "/" + name
  {
    if d == [] || d[|d| - 1] == '/' then d + name else d + "/" + name
  }

  /** A name joined to a directory lies below it, and different names give
      different paths. */
  lemma JoinedIsUnder(d: string, name: string, other: string)
    requires d != [] && d[|d| - 1] != '/'
    requires name != [] && name[0] != '/' && other != [] && other[0] != '/'
    ensures Under(PathJoin(d, name), d) && PathJoin(d, name) != d
    ensures name != other ==> PathJoin(d, name) != PathJoin(d, other)
  {
    var p := PathJoin(d, name);
    assert p[..|d| + 1] == d + "/";
    if PathJoin(d, name) == PathJoin(d, other) {
      assert name == p[|d| + 1..] == other;
    }
  }

  // ---------------------------------------------------------------------
  // The agent's configuration

  /** The lines of `snmpd.conf` as `__init__` writes them: the `[snmpd]`
      section with the read-only and the read-write community, the agent,
      inform and SMUX ports and the AgentX master socket, a blank line, then
      the `[snmp]` section with the state directory; every line ends with a
      line break, so the last piece after it is empty. */
  function ConfigLines(agentport: nat, informport: nat, smuxport: nat, mastersocket: string, statedir: string): (r: seq<string>)
    ensures |r| == 12 && r[|r| - 1] == ""
    ensures '\n' !in mastersocket && '\n' !in statedir ==> forall k :: 0 <= k < |r| ==> '\n' !in r[k]
  {
    SnmpdSectionHasNoBreak();
    PortKeysHaveNoBreak();
    SnmpSectionHasNoBreak();
    PortLineHasNoBreak("agentaddress localhost:", agentport);
    PortLineHasNoBreak("informsink localhost:", informport);
    PortLineHasNoBreak("smuxsocket localhost:", smuxport);
    ["[snmpd]",
     "rocommunity public 127.0.0.1",
     "rwcommunity simple 127.0.0.1",
     "agentaddress localhost:" + Decimal(agentport),
     "informsink localhost:" + Decimal(informport),
     "smuxsocket localhost:" + Decimal(smuxport),
     "master agentx",
     "agentXSocket " + mastersocket,
     "",
     "[snmp]",
     "persistentDir " + statedir,
     ""]
  }

  /** The text of `snmpd.conf`: its writes one after the other. */
  function ConfigText(agentport: nat, informport: nat, smuxport: nat, mastersocket: string, statedir: string): (r: string)
    ensures var ls := ConfigLines(agentport, informport, smuxport, mastersocket, statedir);
      r == Join(ls[..|ls| - 1], '\n') + "\n"
  {
    var ls := ConfigLines(agentport, informport, smuxport, mastersocket, statedir);
    assert ls == ls[..|ls| - 1] + [""];
    JoinSnoc(ls[..|ls| - 1], "", '\n');
    Join(ls, '\n')
  }

  /** Read back line by line, the configuration gives its lines in the order
      they were written. */
  lemma ConfigReadsBack(agentport: nat, informport: nat, smuxport: nat,
                          mastersocket: string, statedir: string)
    requires '\n' !in mastersocket && '\n' !in statedir
    ensures Split(ConfigText(agentport, informport, smuxport, mastersocket, statedir), '\n')
         == ConfigLines(agentport, informport, smuxport, mastersocket, statedir)
  {
    var ls := ConfigLines(agentport, informport, smuxport, mastersocket, statedir);
    SplitJoin(ls, '\n');
  }

  lemma SnmpdSectionHasNoBreak()
    ensures '\n' !in "[snmpd]"
    ensures '\n' !in "rocommunity public 127.0.0.1"
    ensures '\n' !in "rwcommunity simple 127.0.0.1"
  {
  }

  lemma PortKeysHaveNoBreak()
    ensures '\n' !in "agentaddress localhost:"
    ensures '\n' !in "informsink localhost:"
    ensures '\n' !in "smuxsocket localhost:"
  {
  }

  lemma SnmpSectionHasNoBreak()
    ensures '\n' !in "master agentx"
    ensures '\n' !in "agentXSocket "
    ensures '\n' !in "[snmp]"
    ensures '\n' !in "persistentDir "
  {
  }

  lemma PortLineHasNoBreak(key: string, port: nat)
    requires '\n' !in key
    ensures '\n' !in key + Decimal(port)
  {
    var digits := Decimal(port);
    assert forall i :: 0 <= i < |digits| ==> digits[i] != '\n';
  }

  /** The agent listens where every client command sends its requests. */
  lemma AgentAddressIsClientEndpoint(mastersocket: string, statedir: string)
    ensures ConfigLines(6555, 6556, 6557, mastersocket, statedir)[3] == "agentaddress " + AgentEndpoint
  {
    assert Decimal(6555) == "6555" by {
      assert Decimal(6) == "6";
      assert Decimal(65) == "65";
      assert Decimal(655) == "655";
    }
    assert "agentaddress localhost:" + "6555" == "agentaddress " + "localhost:6555";
  }

  // ---------------------------------------------------------------------
  // The environment

  datatype Outcome =
    | Completed      // the agent (if any) is gone and the directory removed
    | PidNotInteger  // `int()` rejected the pid file's text
    | StillWaiting   // the agent was still running at the last look

  /** The SIGTERMs `kill_process` sends: none to a process not running, one
      if it is gone at the first look afterwards, else a second one. */
  function Sigterms(running: bool, pid: int, answers: seq<bool>): seq<int> {
    if !running then []
    else if |answers| == 0 || !answers[0] then [pid]
    else [pid, pid]
  }

  class TestEnv {
    const host: Host
    const agentport: nat
    const informport: nat
    const smuxport: nat
    const tmpdir: Option<string>
    const mastersocket: Option<string>
    const statedir: Option<string>
    const pidfile: Option<string>

    /** The pid file lies in the temporary directory, and is only there
        while the directory is. */
    predicate Valid()
      reads host
    {
      pidfile.Some? ==>
        tmpdir.Some? && Under(pidfile.value, tmpdir.value)
        && (pidfile.value in host.files ==> tmpdir.value in host.dirs)
    }

    /** The text of the pid file, when it can be read. */
    function PidText(): Option<string>
      reads host
    {
      if pidfile.Some? && pidfile.value in host.files then Some(host.files[pidfile.value]) else None
    }

    /** Nothing is left for `shutdown` to do: no pid file to read and no
        directory to remove. */
    predicate Settled()
      reads host
    {
      PidText().None? && (tmpdir.None? || tmpdir.value !in host.dirs)
    }

    /** `__init__`: fixed ports, a fresh directory `tmp` (what `mkdtemp`
        returned) holding the configuration, an empty `mib_indexes` and,
        once the agent runs as `agentPid`, its pid file. */
    constructor(h: Host, tmp: string, agentPid: int)
      requires tmp != [] && tmp[|tmp| - 1] != '/'
      requires forall p :: p in h.dirs ==> !Under(p, tmp)
      requires forall p :: p in h.files ==> !Under(p, tmp)
      requires agentPid > 0 && agentPid !in h.live
      modifies h
      ensures host == h && Valid()
      ensures agentport == 6555 && informport == 6556 && smuxport == 6557
      ensures tmpdir == Some(tmp)
      ensures mastersocket == Some(PathJoin(tmp, "snmpd-agentx.sock"))
      ensures statedir == Some(PathJoin(tmp, "state"))
      ensures pidfile == Some(PathJoin(tmp, "snmpd.pid"))
      ensures h.dirs == old(h.dirs) + {tmp}
      ensures h.files == old(h.files)
        [PathJoin(tmp, "snmpd.conf") := ConfigText(6555, 6556, 6557, mastersocket.value, statedir.value)]
        [PathJoin(tmp, "mib_indexes") := ""]
        [PathJoin(tmp, "snmpd.pid") := Decimal(agentPid) + "\n"]
      ensures h.live == old(h.live) + {agentPid}
      ensures h.signalled == old(h.signalled)
      ensures PidText() == Some(Decimal(agentPid) + "\n")
    {
      host := h;
      agentport := 6555;
      informport := 6556;
      smuxport := 6557;
      tmpdir := Some(tmp);
      var conffile := PathJoin(tmp, "snmpd.conf");
      mastersocket := Some(PathJoin(tmp, "snmpd-agentx.sock"));
      statedir := Some(PathJoin(tmp, "state"));
      pidfile := Some(PathJoin(tmp, "snmpd.pid"));
      var indexesfile := PathJoin(tmp, "mib_indexes");
      JoinedIsUnder(tmp, "snmpd.pid", "snmpd.conf");
      new;
      h.MakeDir(tmp);
      h.WriteFile(conffile, ConfigText(agentport, informport, smuxport, mastersocket.value, statedir.value));
      h.WriteFile(indexesfile, "");
      h.LaunchAgent(pidfile.value, agentPid);
    }

    /** `__init__` when `mkdtemp` raises: the ports are set, no path is, and
        nothing on the host changes. */
    constructor WithoutTempDir(h: Host)
      ensures host == h && Valid() && Settled()
      ensures agentport == 6555 && informport == 6556 && smuxport == 6557
      ensures tmpdir.None? && mastersocket.None? && statedir.None? && pidfile.None?
    {
      host := h;
      agentport := 6555;
      informport := 6556;
      smuxport := 6557;
      tmpdir := None;
      mastersocket := None;
      statedir := None;
      pidfile := None;
    }

    /** `kill_process(pid)`: nothing happens to a process that is not
        running; otherwise it gets a SIGTERM and, if still running at the
        next look, a second one, and then `answers` tells, look by look,
        whether it is still running. `exited` says whether it is gone;
        it is false only when the answers ran out first. */
    method KillProcess(pid: int, answers: seq<bool>) returns (exited: bool)
      modifies host
      ensures exited <==> pid !in old(host.live) || false in answers
      ensures host.live == if exited then old(host.live) - {pid} else old(host.live)
      ensures host.signalled == old(host.signalled) + Sigterms(pid in old(host.live), pid, answers)
      ensures host.dirs == old(host.dirs) && host.files == old(host.files)
    {
      if pid !in host.live {
        return true;
      }
      host.Signal(pid);
      if |answers| == 0 {
        return false;
      }
      host.Settle(pid, answers[0]);
      if pid !in host.live {
        return true;
      }
      host.Signal(pid);
      var k := 1;
      assert answers[..1] == [answers[0]];
      while k < |answers| && pid in host.live
        invariant 1 <= k <= |answers|
        invariant pid in host.live <==> false !in answers[..k]
        invariant host.live == if pid in host.live then old(host.live) else old(host.live) - {pid}
        invariant host.signalled == old(host.signalled) + [pid, pid]
        invariant host.dirs == old(host.dirs) && host.files == old(host.files)
      {
        host.Settle(pid, answers[k]);
        assert answers[..k + 1] == answers[..k] + [answers[k]];
        k := k + 1;
      }
      if pid in host.live {
        assert answers[..k] == answers;
      }
      exited := pid !in host.live;
    }

    /** `shutdown()`: if the pid file can be read, the process it names is
        stopped; then the temporary directory, if it is there, is removed
        with everything in it. Text in the pid file that is not an integer
        raises before anything changes. */
    method Shutdown(answers: seq<bool>) returns (outcome: Outcome)
      requires Valid()
      modifies host
      ensures Valid()
      ensures outcome == PidNotInteger <==> old(PidText()).Some? && ParseInt(old(PidText()).value).None?
      ensures outcome == PidNotInteger ==> unchanged(host)
      ensures old(PidText()).None? ==> outcome == Completed
      ensures old(PidText()).None? ==> host.live == old(host.live) && host.signalled == old(host.signalled)
      ensures old(PidText()).Some? && ParseInt(old(PidText()).value).Some? ==>
        var pid := ParseInt(old(PidText()).value).value;
        host.signalled == old(host.signalled) + Sigterms(pid in old(host.live), pid, answers)
        && (outcome == Completed <==> pid !in old(host.live) || false in answers)
        && host.live == (if outcome == Completed then old(host.live) - {pid} else old(host.live))
      ensures outcome != Completed ==> host.dirs == old(host.dirs) && host.files == old(host.files)
      ensures outcome == Completed ==> Settled()
      ensures outcome == Completed && old(tmpdir.Some? && tmpdir.value in host.dirs) ==>
        host.dirs == (set p | p in old(host.dirs) && !Under(p, tmpdir.value))
        && host.files == (map p | p in old(host.files) && !Under(p, tmpdir.value) :: old(host.files)[p])
      ensures old(Settled()) ==> outcome == Completed && unchanged(host)
    {
      if pidfile.Some? && pidfile.value in host.files {
        var pid := ParseInt(host.files[pidfile.value]);
        if pid.None? {
          return PidNotInteger;
        }
        var exited := KillProcess(pid.value, answers);
        if !exited {
          return StillWaiting;
        }
      }
      if tmpdir.Some? && tmpdir.value in host.dirs {
        host.RemoveTree(tmpdir.value);
      }
      return Completed;
    }
  }

  /** Removing a fresh directory's tree leaves the directories that were
      there before it was made. */
  lemma RemoveFreshDir(dirs0: set<string>, tmp: string)
    requires forall p :: p in dirs0 ==> !Under(p, tmp)
    ensures (set p | p in dirs0 + {tmp} && !Under(p, tmp)) == dirs0
  {
  }

  /** Removing a fresh directory's tree drops the files written into it and
      leaves the files that were there before. */
  lemma RemoveFreshFiles(files0: map<string, string>, tmp: string, conf: string, indexes: string,
                         pidfile: string, c1: string, c2: string, c3: string)
    requires forall p :: p in files0 ==> !Under(p, tmp)
    requires Under(conf, tmp) && Under(indexes, tmp) && Under(pidfile, tmp)
    ensures var files1 := files0[conf := c1][indexes := c2][pidfile := c3];
      (map p | p in files1 && !Under(p, tmp) :: files1[p]) == files0
  {
    var files1 := files0[conf := c1][indexes := c2][pidfile := c3];
    var kept := map p | p in files1 && !Under(p, tmp) :: files1[p];
    assert forall p :: p in kept <==> p in files0;
  }

  /** A whole test run: set up, the agent stops at the first SIGTERM, shut
      down, and shut down once more as the exit hook does. The agent is
      gone, the directory and its files are gone, the agent got exactly one
      SIGTERM, and the second shutdown changes nothing. */
  method Lifecycle(h: Host, tmp: string, agentPid: int) returns (first: Outcome, second: Outcome)
    requires tmp != [] && tmp[|tmp| - 1] != '/'
    requires forall p :: p in h.dirs ==> !Under(p, tmp)
    requires forall p :: p in h.files ==> !Under(p, tmp)
    requires agentPid > 0 && agentPid !in h.live
    modifies h
    ensures agentPid !in h.live && h.live == old(h.live)
    ensures h.signalled == old(h.signalled) + [agentPid]
    ensures h.dirs == old(h.dirs) && h.files == old(h.files)
    ensures first == Completed && second == Completed
  {
    var live0 := h.live;
    var env := new TestEnv(h, tmp, agentPid);
    var dirs1, files1 := h.dirs, h.files;
    assert (live0 + {agentPid}) - {agentPid} == live0;
    JoinedIsUnder(tmp, "snmpd.conf", "state");
    JoinedIsUnder(tmp, "mib_indexes", "state");
    RemoveFreshDir(old(h.dirs), tmp);
    RemoveFreshFiles(old(h.files), tmp, PathJoin(tmp, "snmpd.conf"), PathJoin(tmp, "mib_indexes"),
      PathJoin(tmp, "snmpd.pid"), ConfigText(6555, 6556, 6557, env.mastersocket.value, env.statedir.value),
      "", Decimal(agentPid) + "\n");
    ParseDecimal(agentPid, "\n");
    assert ParseInt(env.PidText().value) == Some(agentPid);
    assert Sigterms(true, agentPid, [false]) == [agentPid];
    first := env.Shutdown([false]);
    assert first == Completed;
    assert h.dirs == (set p | p in dirs1 && !Under(p, tmp));
    assert h.files == (map p | p in files1 && !Under(p, tmp) :: files1[p]);
    second := env.Shutdown([]);
  }
}
