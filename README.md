# net-snmp test environment, modelled in Dafny

`telegraf/netsnmptestenv.py` runs a private `snmpd` for integration tests and
drives it with the net-snmp command-line clients. This project models its core:

- **Client commands** (`snmpcmd`). It composes the shell command for `get`,
  `set`, `walk` or `table`. It strips the captured output and turns the exit
  status and output into either the output or one of the environment's
  exceptions: `MIBUnavailableError`, `UnknownOIDError`, `SNMPTimeoutError`,
  `NotWritableError` or `CalledProcessError`.
- **`snmpget`**. It reads `(data, datatype)` out of a line such as
  `SNMPv2-MIB::snmpSetSerialNo.0 = INTEGER: 5`.
- **`snmpset`, `snmpwalk`, `snmptable`**. These are thin wrappers of `snmpcmd`.
- **Set-up** (`__init__`). It uses fixed ports 6555/6556/6557 and a fresh
  temporary directory. It builds the paths of the configuration file, the AgentX
  socket, the state directory, the pid file and the MIB index file. It writes
  `snmpd.conf` and an empty `mib_indexes`, then starts the agent.
- **Tear-down** (`shutdown` with its `kill_process`). If the pid file can be
  read, it stops the process it names with up to two SIGTERMs and waits for it.
  Then it removes the temporary directory.

Layout:

- `text.dfy` (module `Text`): the Python string operations the code relies on.
  These are `split`/`join`, `in`/`find`/`rfind`, `strip`/`rstrip`, `str(n)` and
  `int(text)`, each with the properties the rest needs.
- `classifier.dfy` (module `ResponseClassifier`): the command words and the
  classifier. The classifier is written as the source's chain of tests and also
  as a rule table; a lemma shows the two agree.
- `client.dfy` (module `SnmpClient`): `snmpcmd`, `snmpget` and the three
  wrappers. `snmpget` is modelled as written (`SnmpGet`, `ParseGet`); a second
  reading of its output (`SnmpGetIntended`, `ParseGetIntended`) backs the
  Findings below.
- `environment.dfy` (module `TestEnvironment`): a `Host` class holding
  directories, files, running processes and the signals sent. It also holds a
  `TestEnv` class whose constructor is `__init__` and whose methods are
  `kill_process` and `shutdown`.

Two details of the code shape the model:

- The messages are matched case-sensitively (`re.search` without flags) and
  as literal substrings: the patterns hold no metacharacters except the two
  escaped parentheses.
- `snmpget` keeps only the text between the first and the second "=" of the
  output (`split("=")[1]`) and cuts it at the last ": " (`rsplit(": ", 1)`).
  Values holding a "=" or a ": " therefore come back altered; the Findings
  below show how, and what reading at the first "=" and the first ": " gives
  instead.

## Model

| member | source | states |
|---|---|---|
| Text.LStrip | telegraf/netsnmptestenv.py:135 | the result is a suffix of the input; every dropped character is in the strip set, and the result does not start with one |
| Text.RStrip | telegraf/netsnmptestenv.py:181 | `rstrip`: the result is a prefix; every dropped character is in the set, and the result does not end with one |
| Text.StripIsTrimmedInfix | telegraf/netsnmptestenv.py:184 | `strip` returns a contiguous piece of the input with only strip characters around it, and with none at either of its own ends |
| Text.Strip | telegraf/netsnmptestenv.py:184 | `strip` never lengthens the text, the result neither starts nor ends with a strip character, and text made only of strip characters becomes empty |
| Text.StripKeeps | telegraf/netsnmptestenv.py:184 | text with no strip character at either end is left unchanged |
| Text.RStripAppend | telegraf/netsnmptestenv.py:135 | trailing strip characters make no difference to `rstrip` |
| Text.FindFirst | telegraf/netsnmptestenv.py:143-156 | substring search: `Some(i)` is an occurrence with none earlier, and `None` means there is no occurrence at all |
| Text.FindLast | telegraf/netsnmptestenv.py:180 | the last occurrence, as `rsplit(sep, 1)` uses it: an occurrence with none later, or no occurrence at all |
| Text.ContainsInContext | telegraf/netsnmptestenv.py:143-156 | a message is found in any output that includes it, whatever surrounds it |
| Text.ContainsChar | telegraf/netsnmptestenv.py:179 | `":" in data` for a one-character pattern is membership of that character, in both directions |
| Text.Split | telegraf/netsnmptestenv.py:178 | `split(c)` yields at least one piece, and no piece contains the separator |
| Text.JoinSplit | telegraf/netsnmptestenv.py:178 | joining the pieces of a split with the separator gives back the text |
| Text.JoinSnoc | telegraf/netsnmptestenv.py:43-53 | joining one more piece appends the separator and that piece, which is how each `write` of a line and its break extends the file |
| Text.SplitJoin | telegraf/netsnmptestenv.py:178 | splitting a join of separator-free pieces gives back the pieces |
| Text.SplitCount | telegraf/netsnmptestenv.py:178 | `split("=")` has a second piece exactly when "=" occurs, so `[1]` raises exactly when it does not |
| Text.Decimal | telegraf/netsnmptestenv.py:47-49 | `str(n)` is a non-empty run of digits |
| Text.DecimalValue | telegraf/netsnmptestenv.py:88 | the digits `str(n)` writes have value `n` |
| Text.ParseInt | telegraf/netsnmptestenv.py:88 | `int()` raises on empty or all-blank text; accepted text ends, after stripping, in a digit, and a negative result needs a leading minus sign |
| Text.ParseDecimal | telegraf/netsnmptestenv.py:88 | `int()` reads back what `str(n)` wrote, also with trailing whitespace such as the pid file's line break |
| ResponseClassifier.CommandWords | telegraf/netsnmptestenv.py:118-124 | the command (`ClientCommand`, the words of `CommandArgs` joined by blanks) splits at its blanks into `/usr/bin/snmp<op> -M+. -r0 -v 2c -c`, then the community (`simple` for set, `public` otherwise), `localhost:6555` and the OID; set adds the type and then the data (11 words), and other operations have 9 |
| ResponseClassifier.Classify | telegraf/netsnmptestenv.py:142-168 | success iff exit status 0 and neither advisory message, returning the output unchanged; with status 0 the "No Such Object" message gives MIBUnavailable, and otherwise the "No Such Instance" message gives UnknownOID; a non-zero status always raises: the "Unknown Object Identifier" message gives UnknownOID, otherwise the timeout message gives SNMPTimeout naming `localhost:6555`, otherwise the notWritable message gives NotWritable; `CalledProcessError` keeps the status, command and output, and is raised exactly when no message is recognised |
| ResponseClassifier.FirstRule | telegraf/netsnmptestenv.py:142-156 | the rule picked is the first in order whose status and message match; no rule is picked iff none matches |
| ResponseClassifier.ClassifyFollowsTable | telegraf/netsnmptestenv.py:142-168 | the chain of tests equals the ordered table (pattern, status, exception) read first-match |
| ResponseClassifier.MibMessageWins | telegraf/netsnmptestenv.py:143-146 | with status 0, output holding both advisory messages raises MIBUnavailable, in either order |
| ResponseClassifier.UnknownIdentifierWins | telegraf/netsnmptestenv.py:149-150 | with a non-zero status, an unresolvable name raises UnknownOID whatever else was printed |
| ResponseClassifier.ValueLineIsNotAdvisory | telegraf/netsnmptestenv.py:143-146 | an ordinary `NAME = TYPE: VALUE` line (no "=" after the first) never matches an advisory message |
| SnmpClient.SnmpCmd | telegraf/netsnmptestenv.py:118-168 | success iff status 0 and neither advisory message in the captured output stripped of ASCII whitespace, returning that stripped output; every failure is the classification of the stripped output for the composed command; never IndexError |
| SnmpClient.UnquoteQuoted | telegraf/netsnmptestenv.py:185-186 | removing the enclosing quotes undoes adding them |
| SnmpClient.Unquote | telegraf/netsnmptestenv.py:185-186 | data enclosed in double quotes is the result with the quotes put back; data not enclosed is returned unchanged; a lone `"` gives "" |
| SnmpClient.DataAndType | telegraf/netsnmptestenv.py:179-187 | text without ':' is stripped, unquoted data of type STRING; text with ':' but no ": " is a type (trailing colons removed, stripped) with empty data; the ": " case is stated by ReadAtLastColonBlank |
| SnmpClient.ParseGet | telegraf/netsnmptestenv.py:178 | as written: raises IndexError exactly when the output holds no "=" |
| SnmpClient.ParseGetIntended | telegraf/netsnmptestenv.py:178 | intended reading: fails (IndexError) exactly when the output holds no "=" |
| SnmpClient.SnmpGet | telegraf/netsnmptestenv.py:170-187 | as written: with a non-zero status or an advisory message in the stripped output, the error is exactly the one `snmpcmd` classifies (so MIBUnavailable and UnknownOID reach the caller), never IndexError; success needs status 0 and a "=" in the stripped output; `CalledProcessError` names the get command |
| SnmpClient.SnmpGetIntended | telegraf/netsnmptestenv.py:170-187 | intended reading: the same errors, passed through from `snmpcmd`, and the same success condition as `SnmpGet` |
| SnmpClient.GetWithoutEquals | telegraf/netsnmptestenv.py:178 | `snmpget` raises IndexError iff the command succeeded and its stripped output holds no "=" |
| SnmpClient.GetOfQuietOutput | telegraf/netsnmptestenv.py:142-147 | with status 0 and no advisory message, `snmpget` is the as-written parse (`ParseGet`) of the stripped output |
| SnmpClient.IntendedOfQuietOutput | telegraf/netsnmptestenv.py:142-147 | intended reading: with status 0 and no advisory message, the result is `ParseGetIntended` of the stripped output |
| SnmpClient.GetRoundTrip | telegraf/netsnmptestenv.py:170-187 | for the agent's line `NAME = TYPE: VALUE` plus a line break, with a value holding neither "=" nor ": ", `snmpget` returns `(VALUE without enclosing quotes, TYPE)`; an empty value gives `("", TYPE)` |
| SnmpClient.SnmpGetIntendedRoundTrip | telegraf/netsnmptestenv.py:170-187 | intended reading: the same round trip for every value without "=", including values holding ": " |
| SnmpClient.ReadAtLastColonBlank | telegraf/netsnmptestenv.py:179-187 | as written, text `x: y` with no other ": " in `y` gives type `strip(x)` and data `unquote(strip(y))` |
| SnmpClient.ReadAtFirstColonBlank | telegraf/netsnmptestenv.py:179-187 | intended reading: text `x: y` with no ':' in `x` gives type `strip(x)` and data `unquote(strip(y))` |
| SnmpClient.RegionAsWritten | telegraf/netsnmptestenv.py:179-187 | the text after "=" of a value line gives back the type and the unquoted value when the value holds no ": " |
| SnmpClient.RegionTypeOnly | telegraf/netsnmptestenv.py:179-182 | the text after "=" of a type-only line, a blank, a type name and one colon, gives empty data and the type |
| SnmpClient.CapturedValueLine | telegraf/netsnmptestenv.py:135 | stripping the captured value line removes the line break, and for an empty value also the blank after the colon |
| SnmpClient.ValueLinePieces | telegraf/netsnmptestenv.py:178 | `split("=")` of a line with one "=" gives the name with its blank and everything after the "=" |
| SnmpClient.ParseValueLine | telegraf/netsnmptestenv.py:178-187 | as written, a value line whose value holds neither "=" nor ": " gives `(unquoted value, type)` |
| SnmpClient.ParseTypeOnlyLine | telegraf/netsnmptestenv.py:178-187 | as written, `NAME = TYPE:` gives `("", TYPE)` |
| SnmpClient.EqualsInValueTruncates | telegraf/netsnmptestenv.py:178 | as written, a value `a=b` comes back as `a`, while the intended reading returns `a=b` |
| SnmpClient.SplitAtSecondEquals | telegraf/netsnmptestenv.py:178 | `split("=")[1]` is only the text between the first and the second "=" |
| SnmpClient.ColonInValueMisread | telegraf/netsnmptestenv.py:180 | as written, a value `a: b` comes back as data `b` with type `TYPE: a`, while the intended reading returns data `a: b` with type `TYPE` |
| SnmpClient.RegionColonInValue | telegraf/netsnmptestenv.py:180 | as written, a type followed by a value `a: b` is split at the value's own ": ", so the type part takes `a` with it |
| SnmpClient.GetIntendedRoundTrip | telegraf/netsnmptestenv.py:178-187 | intended reading: every `NAME = TYPE: VALUE` line gives `(unquote(strip(VALUE)), TYPE)`, whatever the value holds |
| SnmpClient.IntendedTypeOnly | telegraf/netsnmptestenv.py:178-182 | intended reading: `NAME = TYPE:` gives `("", TYPE)` |
| SnmpClient.AsWrittenAgrees | telegraf/netsnmptestenv.py:178-187 | the as-written and intended readings agree on every value line whose value holds neither "=" nor ": ", and on type-only lines |
| SnmpClient.SnmpSet | telegraf/netsnmptestenv.py:189-197 | success iff status 0 and neither advisory message, returning the stripped output; every failure is the classification of that output for the set command with the type before the data |
| SnmpClient.SnmpWalk | telegraf/netsnmptestenv.py:199-205 | success iff status 0 and neither advisory message, returning the stripped output; every failure is the classification of that output for the walk command |
| SnmpClient.SnmpTable | telegraf/netsnmptestenv.py:207-213 | success iff status 0 and neither advisory message, returning the stripped output; every failure is the classification of that output for the table command |
| TestEnvironment.Host.MakeDir | telegraf/netsnmptestenv.py:33 | `mkdtemp` adds one new directory and changes nothing else |
| TestEnvironment.Host.WriteFile | telegraf/netsnmptestenv.py:43-56 | writing a file sets that file's contents and changes nothing else |
| TestEnvironment.Host.LaunchAgent | telegraf/netsnmptestenv.py:59-62 | the started agent runs as a new process and writes its number and a line break to the pid file |
| TestEnvironment.Host.Signal | telegraf/netsnmptestenv.py:73 | a SIGTERM is recorded for the process; nothing else changes |
| TestEnvironment.Host.Settle | telegraf/netsnmptestenv.py:66-67 | a look at `/proc/<pid>` either finds the process or finds it gone |
| TestEnvironment.Host.RemoveTree | telegraf/netsnmptestenv.py:95 | `rmtree` removes the directory and every directory and file below it, and nothing else |
| TestEnvironment.PathJoin | telegraf/netsnmptestenv.py:36-40 | joining a relative name to a directory not ending in "/" inserts exactly one "/" |
| TestEnvironment.JoinedIsUnder | telegraf/netsnmptestenv.py:36-40 | every joined path lies below the temporary directory, and different names give different paths |
| TestEnvironment.ConfigLines | telegraf/netsnmptestenv.py:43-53 | twelve lines, the last one empty after the final line break; none holds a line break when the socket and state paths hold none |
| TestEnvironment.ConfigText | telegraf/netsnmptestenv.py:43-53 | the file is the lines up to `persistentDir` joined by line breaks, followed by one more line break |
| TestEnvironment.ConfigReadsBack | telegraf/netsnmptestenv.py:43-53 | read back line by line, `snmpd.conf` gives the lines in the order written, and ends with a line break |
| TestEnvironment.AgentAddressIsClientEndpoint | telegraf/netsnmptestenv.py:47 | the agent's `agentaddress` is `localhost:6555`, the endpoint every client command uses |
| TestEnvironment.TestEnv.constructor | telegraf/netsnmptestenv.py:21-62 | the ports are 6555/6556/6557 and every path lies in the new temporary directory; the host gains that directory, the configuration, an empty `mib_indexes`, the pid file and the running agent, and nothing else |
| TestEnvironment.TestEnv.WithoutTempDir | telegraf/netsnmptestenv.py:25-33 | when `mkdtemp` raises, only the ports are set and `shutdown` has nothing to do |
| TestEnvironment.TestEnv.KillProcess | telegraf/netsnmptestenv.py:65-82 | a process that is not running gets no signal; otherwise it gets one SIGTERM, and a second if it is still running at the next look; the result says whether it is gone, which holds iff it was not running or some look found it gone; files and directories are untouched |
| TestEnvironment.TestEnv.Shutdown | telegraf/netsnmptestenv.py:64-95 | with no readable pid file no process is signalled and shutdown completes, removing the directory if it is there; non-integer pid text raises before anything changes; otherwise the named process gets the SIGTERMs of `kill_process` and, once gone, the directory is removed; after a completed shutdown nothing is left to do, and a second call is a no-op |
| TestEnvironment.Lifecycle | extendDynatrace/telegraf/tests/test_01_netsnmptestenv.py:24-111 | set-up then shutdown (agent stopping at the first SIGTERM) then shutdown again: both complete, the agent got exactly one SIGTERM and is gone, and the directories and files are as before set-up |

## Left out

- Running commands: `subprocess.Popen` with `shell=True`, `LANG=C` and merged stderr. The exit status and the captured output are parameters of `snmpcmd`.
- Decoding the captured bytes with `locale.getpreferredencoding()`. Output is modelled as text, stripped of ASCII whitespace as `bytes.strip()` does.
- The monkey-patch of `CalledProcessError.__init__` for Python 2.6. It has no effect on the error's fields, which are modelled.
- `atexit.register(self.shutdown)`. The exit hook's later call is the second `Shutdown` in `Lifecycle`.
- The launch of `/usr/sbin/snmpd` through `check_call`, and its failure. The agent's start is `Host.LaunchAgent` with the process number as a parameter.
- File-system failures: a write that fails, `rmtree` errors, and permissions. `os.access(path, os.R_OK)` is modelled as "the path exists".
- Other ways `mkdtemp` can fail: the directory is given, fresh and empty; only the case where it raises is modelled (`WithoutTempDir`).
- The state directory and AgentX socket that `snmpd` itself creates inside the temporary directory. `RemoveTree` removes whatever lies below the directory, so these would go with it.
- TestEnvironment.TestEnv.KillProcess: the wait for `time.clock()` to advance is left out, because where `time.clock` exists it only waits and changes no state. `time.clock` was removed in Python 3.8; there line 72 raises AttributeError before any SIGTERM is sent, which is not modelled.
- TestEnvironment.TestEnv.constructor: the pid file is written in the same step that starts the agent (`Host.LaunchAgent`). On the host, `check_call` returns once `snmpd` has daemonized and the pid file appears a little later, so a `shutdown` in that window would signal nothing and remove the directory while the agent keeps running; that window is not modelled.
- TestEnvironment.TestEnv.KillProcess: the unbounded `while is_running(pid)` poll is bounded by the list of observations `answers`. When the list runs out with the process still running, the result is `StillWaiting`, where the source would keep polling.
- Text.ParseInt: accepts ASCII digits only. Python's `int()` also accepts other Unicode decimal digits, which a pid file never holds.
- ResponseClassifier.CommandWords: the command text (`ClientCommand`, the argument words joined by single blanks, which is the filled-in format string for every argument) is split back into its words only when the OID, type and data hold no blank. With blanks in them the shell splits the command into other words, which is not modelled.

## Findings

| source | as written | input that shows it | evidently intended | confidence | as-written member | corrected member |
|---|---|---|---|---|---|---|
| telegraf/netsnmptestenv.py:178 | `split("=")[1]` keeps only the text between the first and the second "=" | the output `X = STRING: a=b` gives `("a", "STRING")` | the value is everything after the first "=", giving `("a=b", "STRING")` | medium, not executed | SnmpClient.EqualsInValueTruncates | SnmpClient.GetIntendedRoundTrip |
| telegraf/netsnmptestenv.py:180 | `rsplit(": ", 1)` cuts at the last ": ", inside the value | the output `X = STRING: a: b` gives `("b", "STRING: a")` | the type ends at the first ": ", giving `("a: b", "STRING")` | low (the last ": " is the right cut for a line such as `Wrong Type (should be INTEGER): Gauge32: 5`), not executed | SnmpClient.ColonInValueMisread | SnmpClient.GetIntendedRoundTrip |
