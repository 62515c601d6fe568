/** The client side of the net-snmp test environment: how `snmpcmd` composes
    the command line for an operation, and how it turns the captured output
    and exit status of that command into a value or a typed error. Running
    the command is not modelled: its exit status and output are parameters. */
module ResponseClassifier {
  import opened Text

  // ---------------------------------------------------------------------
  // Messages of net-snmp's client tools that the classifier looks for.

  // The two advisory messages are written in two pieces so that proofs can
  // see how they start without spelling out the whole text.

  /** Printed (with exit status 0) when the object's MIB is not served by the agent. */
  const NoSuchObject: string := " = No " + "Such Object available on this agent at this OID"
  /** Printed (with exit status 0) when the MIB is served but the instance is absent. */
  const NoSuchInstance: string := "= No " + "Such Instance currently exists at this OID"
  /** Printed when the client cannot resolve a name to an OID. */
  const UnknownIdentifier: string := ": Unknown Object Identifier"
  /** Printed when the agent does not answer. */
  const NoResponse: string := "Timeout: No Response from "
  /** Printed when a set targets a read-only object. The regular expression
      escapes both parentheses, so it matches exactly this text. */
  const ReadOnlyObject: string := "Reason: notWritable (That object does not support modification)"

  /** Where every client command sends its request (the agent's fixed port). */
  const AgentEndpoint: string := "localhost:6555"

  /** The exceptions `snmpcmd` and `snmpget` raise. */
  datatype SnmpError =
    | SnmpTimeout(endpoint: string)
    | UnknownOid(oid: string)
    | MibUnavailable(oid: string)
    | NotWritable(oid: string)
    | CalledProcess(returncode: int, cmd: string, output: string)
      /** `snmpget`'s `split("=")[1]` on output that holds no "=". */
    | IndexOutOfRange

  datatype Result<T> = Ok(value: T) | Err(error: SnmpError)

  // ---------------------------------------------------------------------
  // Command composition

  /** `str.format` writes a missing argument (`None`) as the word None. */
  function Render(arg: Option<string>): string {
    if arg.None? then "None" else arg.value
  }

  /** The argument words of the shell command `snmpcmd` runs: `set` uses
      the read-write community and passes the type and the data after the
      OID; every other operation uses the read-only community and passes
      only the OID. */
  function CommandArgs(op: string, oid: string, data: Option<string>, valueType: Option<string>): seq<string>
  {
    ["/usr/bin/snmp" + op, "-M+.", "-r0", "-v", "2c", "-c", if op == "set" then "simple" else "public", AgentEndpoint]
    + (if op == "set" then [oid, Render(valueType), Render(data)] else [oid])
  }

  /** The command text: the format strings
      `/usr/bin/snmp{0} -M+. -r0 -v 2c -c simple localhost:6555 {1} {2} {3}` (set) and
      `/usr/bin/snmp{0} -M+. -r0 -v 2c -c public localhost:6555 {1}` (others)
      filled in, which is the argument words with one blank between each two. */
  function ClientCommand(op: string, oid: string, data: Option<string>, valueType: Option<string>): string
  {
    Join(CommandArgs(op, oid, data, valueType), ' ')
  }

  /** Split at its spaces, a client command gives back its argument words:
      program `/usr/bin/snmp<op>`, `-M+. -r0 -v 2c -c`, the community
      (`simple` for set, `public` otherwise), the agent's endpoint, then the
      OID, and for set the type and the data, in that order. */
  lemma CommandWords(op: string, oid: string, data: Option<string>, valueType: Option<string>)
    requires ' ' !in op && ' ' !in oid
    requires op == "set" ==> ' ' !in Render(data) && ' ' !in Render(valueType)
    ensures Split(ClientCommand(op, oid, data, valueType), ' ') == CommandArgs(op, oid, data, valueType)
    ensures var words := Split(ClientCommand(op, oid, data, valueType), ' ');
      words[6] == (if op == "set" then "simple" else "public") && words[7] == AgentEndpoint && words[8] == oid
      && (op == "set" ==> |words| == 11 && words[9] == Render(valueType) && words[10] == Render(data))
      && (op != "set" ==> |words| == 9)
  {
    var args := CommandArgs(op, oid, data, valueType);
    assert ' ' !in "/usr/bin/snmp" + op;
    SplitJoin(args, ' ');
  }

  // ---------------------------------------------------------------------
  // Classification of the captured output

  /** What `snmpcmd` makes of the (stripped) output of command `cmd` run for
      `oid` with exit status `rc`: with status 0 two advisory messages still
      raise, in that order; otherwise the output is the result. A non-zero
      status always raises: a recognised message picks the error, in a fixed
      order, and anything else is a `CalledProcessError` that keeps the
      status, the command and the output. */
  function Classify(rc: int, output: string, oid: string, cmd: string): (r: Result<string>)
    ensures r.Ok? <==> rc == 0 && !Contains(output, NoSuchObject) && !Contains(output, NoSuchInstance)
    ensures r.Ok? ==> r.value == output
    ensures rc == 0 ==> r.Ok? || r.error == MibUnavailable(oid) || r.error == UnknownOid(oid)
    ensures rc == 0 && Contains(output, NoSuchObject) ==> r == Err(MibUnavailable(oid))
    ensures rc != 0 ==> r.Err? && !r.error.MibUnavailable? && !r.error.IndexOutOfRange?
    ensures rc == 0 && !Contains(output, NoSuchObject) && Contains(output, NoSuchInstance) ==>
      r == Err(UnknownOid(oid))
    ensures rc != 0 && Contains(output, UnknownIdentifier) ==> r == Err(UnknownOid(oid))
    ensures rc != 0 && !Contains(output, UnknownIdentifier) && Contains(output, NoResponse) ==>
      r == Err(SnmpTimeout(AgentEndpoint))
    ensures (rc != 0 && !Contains(output, UnknownIdentifier) && !Contains(output, NoResponse)
             && Contains(output, ReadOnlyObject)) ==> r == Err(NotWritable(oid))
    ensures r.Err? && r.error.SnmpTimeout? ==> r.error.endpoint == AgentEndpoint
    ensures r.Err? && r.error.CalledProcess? ==> r.error == CalledProcess(rc, cmd, output)
    ensures r.Err? && r.error.CalledProcess? <==>
      rc != 0 && !Contains(output, UnknownIdentifier) && !Contains(output, NoResponse)
      && !Contains(output, ReadOnlyObject)
  {
    if rc == 0 then
      if Contains(output, NoSuchObject) then Err(MibUnavailable(oid))
      else if Contains(output, NoSuchInstance) then Err(UnknownOid(oid))
      else Ok(output)
    else if Contains(output, UnknownIdentifier) then Err(UnknownOid(oid))
    else if Contains(output, NoResponse) then Err(SnmpTimeout(AgentEndpoint))
    else if Contains(output, ReadOnlyObject) then Err(NotWritable(oid))
    else Err(CalledProcess(rc, cmd, output))
  }

  // The same classification written as a table of rules tried in order, the
  // first whose message occurs deciding the error.

  datatype ErrorKind = MibMissing | OidMissing | NoAnswer | ReadOnly

  /** A rule applies to a zero or a non-zero exit status. */
  datatype Rule = Rule(zeroExit: bool, message: string, kind: ErrorKind)

  const Rules: seq<Rule> := [
    Rule(true, NoSuchObject, MibMissing),
    Rule(true, NoSuchInstance, OidMissing),
    Rule(false, UnknownIdentifier, OidMissing),
    Rule(false, NoResponse, NoAnswer),
    Rule(false, ReadOnlyObject, ReadOnly)
  ]

  predicate Applies(rule: Rule, rc: int, output: string) {
    rule.zeroExit == (rc == 0) && Contains(output, rule.message)
  }

  /** The index of the first rule that applies, if any. */
  function FirstRule(rules: seq<Rule>, rc: int, output: string): (r: Option<nat>)
    ensures r.Some? ==> r.value < |rules| && Applies(rules[r.value], rc, output)
    ensures r.Some? ==> forall j :: 0 <= j < r.value ==> !Applies(rules[j], rc, output)
    ensures r.None? ==> forall j :: 0 <= j < |rules| ==> !Applies(rules[j], rc, output)
  {
    if rules == [] then None
    else if Applies(rules[0], rc, output) then Some(0)
    else
      var rest := FirstRule(rules[1..], rc, output);
      if rest.None? then None else Some(rest.value + 1)
  }

  function Raise(kind: ErrorKind, oid: string): SnmpError {
    match kind
    case MibMissing => MibUnavailable(oid)
    case OidMissing => UnknownOid(oid)
    case NoAnswer => SnmpTimeout(AgentEndpoint)
    case ReadOnly => NotWritable(oid)
  }

  function ClassifyByTable(rc: int, output: string, oid: string, cmd: string): Result<string> {
    match FirstRule(Rules, rc, output)
    case Some(i) => Err(Raise(Rules[i].kind, oid))
    case None => if rc == 0 then Ok(output) else Err(CalledProcess(rc, cmd, output))
  }

  /** The chain of tests in `snmpcmd` is the rule table, read in order. */
  lemma ClassifyFollowsTable(rc: int, output: string, oid: string, cmd: string)
    ensures Classify(rc, output, oid, cmd) == ClassifyByTable(rc, output, oid, cmd)
  {
    var r := FirstRule(Rules, rc, output);
    var n := if r.Some? then r.value else |Rules|;
    if n > 0 { assert !Applies(Rules[0], rc, output); }
    if n > 1 { assert !Applies(Rules[1], rc, output); }
    if n > 2 { assert !Applies(Rules[2], rc, output); }
    if n > 3 { assert !Applies(Rules[3], rc, output); }
    if n > 4 { assert !Applies(Rules[4], rc, output); }
  }

  /** With status 0, the "No Such Object" message wins over "No Such
      Instance", wherever each occurs. */
  lemma MibMessageWins(a: string, b: string, c: string, oid: string, cmd: string)
    ensures Classify(0, a + NoSuchInstance + b + NoSuchObject + c, oid, cmd) == Err(MibUnavailable(oid))
    ensures Classify(0, a + NoSuchObject + b + NoSuchInstance + c, oid, cmd) == Err(MibUnavailable(oid))
  {
    assert a + NoSuchInstance + b + NoSuchObject + c == (a + NoSuchInstance + b) + NoSuchObject + c;
    ContainsInContext(a + NoSuchInstance + b, NoSuchObject, c);
    ContainsInContext(a, NoSuchObject, b + NoSuchInstance + c);
    assert a + NoSuchObject + b + NoSuchInstance + c == a + NoSuchObject + (b + NoSuchInstance + c);
  }

  /** A name that the client cannot resolve raises `UnknownOIDError`
      whatever else the failing command printed. */
  lemma UnknownIdentifierWins(rc: int, name: string, rest: string, oid: string, cmd: string)
    requires rc != 0
    ensures Classify(rc, name + UnknownIdentifier + rest, oid, cmd) == Err(UnknownOid(oid))
  {
    ContainsInContext(name, UnknownIdentifier, rest);
  }

  // ---------------------------------------------------------------------
  // Shape of the value line an agent prints for `snmpget`

  /** A name as the client prints it before " = ": no "=", no leading blank. */
  predicate IsObjectName(name: string) {
    |name| >= 1 && !IsSpace(name[0]) && '=' !in name
  }

  /** A type as the client prints it before ": " (INTEGER, STRING, ...). */
  predicate IsTypeName(t: string) {
    |t| >= 1 && forall k :: 0 <= k < |t| ==> !IsSpace(t[k]) && t[k] != ':' && t[k] != '='
  }

  /** Text with no blank at either end. */
  predicate IsTrimmed(v: string) {
    v == [] || (!IsSpace(v[0]) && !IsSpace(v[|v| - 1]))
  }

  /** A type name followed by ':' does not spell "No ". */
  lemma TypeNameIsNotNo(t: string, tail: string)
    requires IsTypeName(t) && |tail| >= 1 && tail[0] == ':'
    ensures |t + tail| >= 3 ==> (t + tail)[..3] != "No "
  {
    if |t + tail| >= 3 {
      if |t| >= 3 {
        assert (t + tail)[..3][2] == t[2];
      } else {
        assert (t + tail)[|t|] == ':';
        assert (t + tail)[..3][|t|] == ':';
      }
    }
  }

  /** A value line carries neither advisory message: their "=" would have to
      be the line's own, and then "No " would have to start the type name. */
  lemma ValueLineIsNotAdvisory(name: string, t: string, tail: string)
    requires IsObjectName(name) && IsTypeName(t)
    requires |tail| >= 1 && tail[0] == ':' && '=' !in tail
    ensures !Contains(name + " = " + t + tail, NoSuchObject)
    ensures !Contains(name + " = " + t + tail, NoSuchInstance)
  {
    assert NoSuchObject[1] == '=' && NoSuchObject[3..6] == "No ";
    ValueLineLacks(name, t, tail, NoSuchObject, 1);
    assert NoSuchInstance[0] == '=' && NoSuchInstance[2..5] == "No ";
    ValueLineLacks(name, t, tail, NoSuchInstance, 0);
  }

  /** A pattern holding "= No " at index `k` does not occur in a value line. */
  lemma ValueLineLacks(name: string, t: string, tail: string, p: string, k: nat)
    requires IsObjectName(name) && IsTypeName(t)
    requires |tail| >= 1 && tail[0] == ':' && '=' !in tail
    requires k + 5 <= |p| && p[k] == '=' && p[k + 2..k + 5] == "No "
    ensures !Contains(name + " = " + t + tail, p)
  {
    var s := name + " = " + t + tail;
    forall i | 0 <= i <= |s| ensures !OccursAt(s, p, i) {
      ValueLineLacksAt(name, t, tail, p, k, i);
    }
  }

  /** ... and in particular not at position `i`: either its "=" misses the
      line's only one, or "No " would have to start the type name. */
  lemma ValueLineLacksAt(name: string, t: string, tail: string, p: string, k: nat, i: int)
    requires IsObjectName(name) && IsTypeName(t)
    requires |tail| >= 1 && tail[0] == ':' && '=' !in tail
    requires k + 5 <= |p| && p[k] == '=' && p[k + 2..k + 5] == "No "
    ensures !OccursAt(name + " = " + t + tail, p, i)
  {
    var s := name + " = " + t + tail;
    var e := |name| + 1;
    if 0 <= i && i + |p| <= |s| {
      var w := s[i..i + |p|];
      assert w[k] == s[i + k];
      if i + k != e {
        assert forall j :: 0 <= j < |name| ==> s[j] == name[j];
        assert forall j :: |name| + 3 <= j < |name| + 3 + |t| ==> s[j] == t[j - |name| - 3];
        assert forall j :: |name| + 3 + |t| <= j < |s| ==> s[j] == tail[j - |name| - 3 - |t|];
        assert s[i + k] != '=';
      } else {
        TypeNameIsNotNo(t, tail);
        assert s[|name| + 3..] == t + tail;
        assert w[k + 2..k + 5] == s[e + 2..e + 5];
        assert s[e + 2..e + 5] == (t + tail)[..3];
      }
    }
  }


}
