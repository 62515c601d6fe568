/** The operations of the test environment that run a client command:
    `snmpcmd` (compose, run, classify), `snmpget` (and how it reads the value
    and its type out of the output), `snmpset`, `snmpwalk` and `snmptable`.
    The command's exit status `rc` and its captured output are parameters. */
module SnmpClient {
  import opened Text
  import opened ResponseClassifier

  /** `snmpcmd(op, oid, data, datatype)` for a command that exited with `rc`
      after printing `captured`: the captured bytes are stripped of blanks at
      both ends, then classified. */
  function SnmpCmd(op: string, oid: string, data: Option<string>, valueType: Option<string>,
                   rc: int, captured: string): (r: Result<string>)
    ensures r.Ok? <==>
      rc == 0 && !Contains(Strip(captured, IsAsciiSpace), NoSuchObject)
      && !Contains(Strip(captured, IsAsciiSpace), NoSuchInstance)
    ensures r.Ok? ==> r.value == Strip(captured, IsAsciiSpace)
    ensures r.Err? ==> r == Classify(rc, Strip(captured, IsAsciiSpace), oid, ClientCommand(op, oid, data, valueType))
    ensures r.Err? && r.error.CalledProcess? ==>
      r.error == CalledProcess(rc, ClientCommand(op, oid, data, valueType), Strip(captured, IsAsciiSpace))
    ensures !(r.Err? && r.error.IndexOutOfRange?)
  {
    Classify(rc, Strip(captured, IsAsciiSpace), oid, ClientCommand(op, oid, data, valueType))
  }

  // ---------------------------------------------------------------------
  // snmpget

  /** `data[1:-1]` when `data` starts and ends with a double quote (a lone
      quote satisfies both and gives ""), otherwise `data` unchanged. */
  function Unquote(d: string): (r: string)
    ensures |d| >= 2 && d[0] == '"' && d[|d| - 1] == '"' ==> d == "\"" + r + "\""
    ensures d == [] || d[0] != '"' || d[|d| - 1] != '"' ==> r == d
    ensures d == "\"" ==> r == ""
  {
    if |d| >= 1 && d[0] == '"' && d[|d| - 1] == '"' then
      (if |d| >= 2 then d[1..|d| - 1] else "")
    else d
  }

  /** Removing quotes undoes adding them. */
  lemma UnquoteQuoted(v: string)
    ensures Unquote("\"" + v + "\"") == v
  {
    var q := "\"" + v + "\"";
    assert q[1..|q| - 1] == v;
  }

  /** The two halves of `s` around the occurrence of `sep` that `split(sep, 1)`
      (first) or `rsplit(sep, 1)` (last) uses. */
  function SplitAround(s: string, sep: string, atFirst: bool): (string, string)
    requires Contains(s, sep)
  {
    var first := FindFirst(s, sep).value;
    assert OccursAt(s, sep, first);
    var i := if atFirst then first else FindLast(s, sep).value;
    (s[..i], s[i + |sep|..])
  }

  /** `(data, datatype)` as `snmpget` reads them from the text after "=":
      with a ": " it is the type, then the data; with a ':' but no ": " it
      is a type alone, trailing colons removed, and empty data; with no ':'
      at all it is data of type STRING. The type is stripped; the data is
      stripped and then loses one pair of enclosing quotes. `atFirst` says
      whether the split is at the first ": " or, as written, at the last. */
  function DataAndType(region: string, atFirst: bool): (r: (string, string))
    ensures ':' !in region ==> r == (Unquote(Strip(region, IsSpace)), "STRING")
    ensures ':' in region && !Contains(region, ": ") ==> r == ("", Strip(RStrip(region, IsColon), IsSpace))
  {
    ContainsChar(region, ':');
    if Contains(region, ":") then
      var (t, d) := if Contains(region, ": ") then SplitAround(region, ": ", atFirst)
                    else (RStrip(region, IsColon), "");
      (Unquote(Strip(d, IsSpace)), Strip(t, IsSpace))
    else (Unquote(Strip(region, IsSpace)), "STRING")
  }

  /** What `snmpget` as written makes of the output `snmpcmd` returned: the
      piece between the first and the second "=" (`split("=")[1]`, which
      raises IndexError when there is no "="), read by `DataAndType` at the
      last ": ". */
  function ParseGet(output: string): (r: Result<(string, string)>)
    ensures r.Err? <==> '=' !in output
    ensures r.Err? ==> r.error == IndexOutOfRange
  {
    var pieces := Split(output, '=');
    SplitCount(output, '=');
    if |pieces| < 2 then Err(IndexOutOfRange)
    else Ok(DataAndType(pieces[1], false))
  }

  /** The reading evidently intended: everything after the first "=", split
      at the first ": ". It differs from `ParseGet` only for values that hold
      a "=" or a ": " (see `AsWrittenAgrees`). */
  function ParseGetIntended(output: string): (r: Result<(string, string)>)
    ensures r.Err? <==> '=' !in output
    ensures r.Err? ==> r.error == IndexOutOfRange
  {
    ContainsChar(output, '=');
    match FindFirst(output, "=")
    case None => Err(IndexOutOfRange)
    case Some(i) => Ok(DataAndType(output[i + 1..], true))
  }

  /** `snmpget(oid)`: the errors of `snmpcmd` pass through unchanged, and
      a successful output is read as written (`ParseGet`). */
  function SnmpGet(oid: string, rc: int, captured: string): (r: Result<(string, string)>)
    ensures rc != 0 ==> r.Err? && !r.error.IndexOutOfRange? && !r.error.MibUnavailable?
    ensures r.Ok? ==> rc == 0 && '=' in Strip(captured, IsAsciiSpace)
    ensures r.Err? && r.error.CalledProcess? ==> r.error.cmd == ClientCommand("get", oid, None, None)
    ensures rc != 0 || Contains(Strip(captured, IsAsciiSpace), NoSuchObject)
              || Contains(Strip(captured, IsAsciiSpace), NoSuchInstance) ==>
      var c := Classify(rc, Strip(captured, IsAsciiSpace), oid, ClientCommand("get", oid, None, None));
      c.Err? && r == Err(c.error)
  {
    match SnmpCmd("get", oid, None, None, rc, captured)
    case Err(e) => Err(e)
    case Ok(output) => ParseGet(output)
  }

  /** `snmpget` with the intended reading of its output (`ParseGetIntended`)
      in place of the one as written. */
  function SnmpGetIntended(oid: string, rc: int, captured: string): (r: Result<(string, string)>)
    ensures rc != 0 ==> r.Err? && !r.error.IndexOutOfRange? && !r.error.MibUnavailable?
    ensures r.Ok? ==> rc == 0 && '=' in Strip(captured, IsAsciiSpace)
    ensures r.Err? && r.error.CalledProcess? ==> r.error.cmd == ClientCommand("get", oid, None, None)
    ensures rc != 0 || Contains(Strip(captured, IsAsciiSpace), NoSuchObject)
              || Contains(Strip(captured, IsAsciiSpace), NoSuchInstance) ==>
      var c := Classify(rc, Strip(captured, IsAsciiSpace), oid, ClientCommand("get", oid, None, None));
      c.Err? && r == Err(c.error)
  {
    match SnmpCmd("get", oid, None, None, rc, captured)
    case Err(e) => Err(e)
    case Ok(output) => ParseGetIntended(output)
  }

  /** `snmpget` fails on the index of the "=" split exactly when the command
      succeeded and its output holds no "=" at all (both advisory messages
      hold one, so neither can have fired). */
  lemma GetWithoutEquals(oid: string, rc: int, captured: string)
    ensures SnmpGet(oid, rc, captured) == Err(IndexOutOfRange)
        <==> rc == 0 && '=' !in Strip(captured, IsAsciiSpace)
  {
    var output := Strip(captured, IsAsciiSpace);
    assert NoSuchObject[1] == '=' && NoSuchInstance[0] == '=';
    PatternCharIn(output, NoSuchObject, 1);
    PatternCharIn(output, NoSuchInstance, 0);
  }

  // ---------------------------------------------------------------------
  // What `snmpget` returns for the value line of an existing object

  lemma StripBlankThen(x: string)
    requires x != [] && !IsSpace(x[0]) && !IsSpace(x[|x| - 1])
    ensures Strip(" " + x, IsSpace) == x
  {
    assert (" " + x)[|" " + x| - 1] == x[|x| - 1];
    assert (" " + x)[1..] == x;
  }

  /** Read at the last ": ", text whose tail after a ": " holds no other
      ": " gives the head as the type and the tail as the data. */
  lemma ReadAtLastColonBlank(x: string, y: string)
    requires !Contains(y, ": ")
    ensures DataAndType(x + ": " + y, false) == (Unquote(Strip(y, IsSpace)), Strip(x, IsSpace))
  {
    LastColonBlank(x, y);
    ReadsAround(x, y);
  }

  /** Read at the first ": ", text whose head before a ": " holds no ':'
      gives the head as the type and the tail as the data. */
  lemma ReadAtFirstColonBlank(x: string, y: string)
    requires ':' !in x
    ensures DataAndType(x + ": " + y, true) == (Unquote(Strip(y, IsSpace)), Strip(x, IsSpace))
  {
    FirstColonBlank(x, y);
    ReadsAround(x, y);
  }

  lemma ReadsAround(x: string, y: string)
    ensures var s := x + ": " + y;
      Contains(s, ":") && Contains(s, ": ") && s[..|x|] == x && s[|x| + 2..] == y
  {
    var s := x + ": " + y;
    assert s[|x|..|x| + 2] == ": ";
    ContainsWhereOccurs(s, ": ", |x|);
    assert s[|x|..|x| + 1] == ":";
    ContainsWhereOccurs(s, ":", |x|);
    assert s[..|x|] == x;
    assert s[|x| + 2..] == y;
  }

  /** The text after "=" of a value line, read at the last ": ": as long as
      the value holds no ": " itself, the type and the value come out. */
  lemma RegionAsWritten(t: string, v: string)
    requires IsTypeName(t) && IsTrimmed(v) && !Contains(v, ": ")
    ensures DataAndType(" " + t + ": " + v, false) == (Unquote(v), t)
  {
    ReadAtLastColonBlank(" " + t, v);
    StripBlankThen(t);
    StripKeeps(v, IsSpace);
  }

  /** A value line whose value is empty loses its last blank to `snmpcmd`'s
      strip, and the ':'-but-no-": " branch gives the type and empty data. */
  lemma RegionTypeOnly(t: string, atFirst: bool)
    requires IsTypeName(t)
    ensures DataAndType(" " + t + ":", atFirst) == ("", t)
  {
    var x := " " + t;
    var region := x + ":";
    assert region[|x|..|x| + 1] == ":";
    ContainsWhereOccurs(region, ":", |x|);
    forall j ensures !OccursAt(region, ": ", j) {
      if 0 <= j && j + 2 <= |region| {
        assert region[j..j + 2][1] == region[j + 1];
        if j + 1 < |x| {
          assert region[j + 1] == x[j + 1] == t[j];
        } else {
          assert region[j + 1] == ':';
        }
      }
    }
    assert region[..|x|] == x;
    assert x[|x| - 1] == t[|t| - 1];
    assert RStrip(region, IsColon) == x;
    StripBlankThen(t);
  }

  /** The stripped capture of `NAME = TYPE: VALUE` plus a line break. */
  lemma CapturedValueLine(name: string, t: string, v: string)
    requires IsObjectName(name) && IsTypeName(t) && IsTrimmed(v)
    ensures Strip(name + " = " + t + ": " + v + "\n", IsAsciiSpace)
         == name + " = " + t + (if v == [] then ":" else ": " + v)
  {
    var line := name + " = " + t + ": " + v;
    var out := name + " = " + t + (if v == [] then ":" else ": " + v);
    RStripAppend(line, "\n", IsAsciiSpace);
    if v == [] {
      assert line == out + " ";
      RStripAppend(out, " ", IsAsciiSpace);
      assert out[|out| - 1] == ':';
    } else {
      assert line == out;
      assert out[|out| - 1] == v[|v| - 1];
    }
    assert RStrip(out, IsAsciiSpace) == out;
    assert out[0] == name[0];
  }

  /** The pieces `split("=")` makes of a value line: the name with its
      blank, and everything after the "=". */
  lemma ValueLinePieces(name: string, rest: string)
    requires '=' !in name && '=' !in rest
    ensures Split(name + " = " + rest, '=') == [name + " ", " " + rest]
  {
    SplitAfterPiece(name + " ", " " + rest, '=');
    SplitWithout(" " + rest, '=');
    assert name + " = " + rest == (name + " ") + "=" + (" " + rest);
  }

  /** For the line an agent prints for an existing object, `NAME = TYPE:
      VALUE` (the name free of "=" and not starting with a blank, the type a
      single word), `snmpget` returns the value without its quotes and the
      type, provided the value holds neither "=" nor ": " (see the Findings
      lemmas for those). An empty value comes out empty. */
  lemma GetRoundTrip(oid: string, name: string, t: string, v: string)
    requires IsObjectName(name) && IsTypeName(t) && IsTrimmed(v) && '=' !in v && !Contains(v, ": ")
    ensures SnmpGet(oid, 0, name + " = " + t + ": " + v + "\n") == Ok((Unquote(v), t))
  {
    var tail := if v == [] then ":" else ": " + v;
    CapturedValueLine(name, t, v);
    ValueLineIsNotAdvisory(name, t, tail);
    GetOfQuietOutput(oid, name + " = " + t + ": " + v + "\n");
    if v == [] {
      ParseTypeOnlyLine(name, t);
    } else {
      ParseValueLine(name, t, v);
    }
  }

  /** The same with the intended reading, for every value without "=". */
  lemma SnmpGetIntendedRoundTrip(oid: string, name: string, t: string, v: string)
    requires IsObjectName(name) && IsTypeName(t) && IsTrimmed(v) && '=' !in v
    ensures SnmpGetIntended(oid, 0, name + " = " + t + ": " + v + "\n") == Ok((Unquote(v), t))
  {
    var tail := if v == [] then ":" else ": " + v;
    CapturedValueLine(name, t, v);
    ValueLineIsNotAdvisory(name, t, tail);
    IntendedOfQuietOutput(oid, name + " = " + t + ": " + v + "\n");
    if v == [] {
      IntendedTypeOnly(name, t);
    } else {
      GetIntendedRoundTrip(name, t, v);
      StripKeeps(v, IsSpace);
    }
  }

  /** When no advisory message is in the stripped capture of a successful
      command, `snmpget` is the parse of that capture. */
  lemma GetOfQuietOutput(oid: string, captured: string)
    requires !Contains(Strip(captured, IsAsciiSpace), NoSuchObject)
    requires !Contains(Strip(captured, IsAsciiSpace), NoSuchInstance)
    ensures SnmpGet(oid, 0, captured) == ParseGet(Strip(captured, IsAsciiSpace))
  {
  }

  lemma IntendedOfQuietOutput(oid: string, captured: string)
    requires !Contains(Strip(captured, IsAsciiSpace), NoSuchObject)
    requires !Contains(Strip(captured, IsAsciiSpace), NoSuchInstance)
    ensures SnmpGetIntended(oid, 0, captured) == ParseGetIntended(Strip(captured, IsAsciiSpace))
  {
  }

  /** As written, a stripped value line whose value holds neither "=" nor
      ": " gives back its unquoted value and its type. */
  lemma ParseValueLine(name: string, t: string, v: string)
    requires '=' !in name && IsTypeName(t) && IsTrimmed(v)
    requires '=' !in v && !Contains(v, ": ")
    ensures ParseGet(name + " = " + t + ": " + v) == Ok((Unquote(v), t))
  {
    ValueLineSplit(name, t, v);
    RegionAsWritten(t, v);
  }

  /** As written, a stripped value line whose value is empty gives its type. */
  lemma ParseTypeOnlyLine(name: string, t: string)
    requires '=' !in name && IsTypeName(t)
    ensures ParseGet(name + " = " + t + ":") == Ok(("", t))
  {
    TypeOnlyLineSplit(name, t);
    RegionTypeOnly(t, false);
  }

  /** `split("=")` of a value line whose value holds no "=". */
  lemma ValueLineSplit(name: string, t: string, v: string)
    requires '=' !in name && IsTypeName(t) && '=' !in v
    ensures Split(name + " = " + t + ": " + v, '=') == [name + " ", " " + t + ": " + v]
  {
    var rest := t + ": " + v;
    assert '=' !in rest;
    ValueLinePieces(name, rest);
    assert name + " = " + rest == name + " = " + t + ": " + v;
    assert " " + rest == " " + t + ": " + v;
  }

  /** `split("=")` of a type-only line. */
  lemma TypeOnlyLineSplit(name: string, t: string)
    requires '=' !in name && IsTypeName(t)
    ensures Split(name + " = " + t + ":", '=') == [name + " ", " " + t + ":"]
  {
    var rest := t + ":";
    assert '=' !in rest;
    ValueLinePieces(name, rest);
    assert name + " = " + rest == name + " = " + t + ":";
    assert " " + rest == " " + t + ":";
  }

  /** Findings, as written: a "=" inside the value ends the piece that
      `split("=")[1]` keeps, so everything from it on is lost; the intended
      reading keeps the whole value. */
  lemma EqualsInValueTruncates(name: string, t: string, a: string, b: string)
    requires '=' !in name && IsTypeName(t) && IsTrimmed(a)
    requires a != [] && '=' !in a && !Contains(a, ": ")
    ensures ParseGet(name + " = " + t + ": " + (a + "=" + b)) == Ok((Unquote(a), t))
    ensures ParseGetIntended(name + " = " + t + ": " + (a + "=" + b))
         == Ok((Unquote(Strip(a + "=" + b, IsSpace)), t))
  {
    SplitAtSecondEquals(name, t, a, b);
    RegionAsWritten(t, a);
    GetIntendedRoundTrip(name, t, a + "=" + b);
  }

  /** `split("=")` of a line with a second "=" in the value: the piece
      between the two ends where the value's "=" is. */
  lemma SplitAtSecondEquals(name: string, t: string, a: string, b: string)
    requires '=' !in name && IsTypeName(t) && '=' !in a
    ensures var pieces := Split(name + " = " + t + ": " + (a + "=" + b), '=');
      |pieces| >= 2 && pieces[1] == " " + t + ": " + a
  {
    var p1 := " " + t + ": " + a;
    assert '=' !in p1;
    assert name + " = " + t + ": " + (a + "=" + b) == (name + " ") + "=" + (p1 + "=" + b);
    SplitAfterPiece(name + " ", p1 + "=" + b, '=');
    SplitAfterPiece(p1, b, '=');
  }

  /** Findings, as written: a ": " inside the value is where `rsplit` cuts,
      so the type swallows the start of the value; the intended reading
      cuts at the first ": ". */
  lemma ColonInValueMisread(name: string, t: string, a: string, b: string)
    requires '=' !in name && IsTypeName(t)
    requires a != [] && IsTrimmed(a) && '=' !in a
    requires IsTrimmed(b) && '=' !in b && !Contains(b, ": ")
    ensures ParseGet(name + " = " + t + ": " + (a + ": " + b)) == Ok((Unquote(b), t + ": " + a))
    ensures ParseGetIntended(name + " = " + t + ": " + (a + ": " + b))
         == Ok((Unquote(Strip(a + ": " + b, IsSpace)), t))
  {
    assert '=' !in a + ": " + b;
    ValueLineSplit(name, t, a + ": " + b);
    RegionColonInValue(t, a, b);
    GetIntendedRoundTrip(name, t, a + ": " + b);
  }

  /** As written, the text after "=" of a line whose value is `a: b` is cut
      at the value's ": ". */
  lemma RegionColonInValue(t: string, a: string, b: string)
    requires IsTypeName(t) && a != [] && IsTrimmed(a) && IsTrimmed(b) && !Contains(b, ": ")
    ensures DataAndType(" " + t + ": " + (a + ": " + b), false) == (Unquote(b), t + ": " + a)
  {
    var ta := t + ": " + a;
    assert " " + t + ": " + (a + ": " + b) == (" " + ta) + ": " + b;
    ReadAtLastColonBlank(" " + ta, b);
    assert ta[0] == t[0] && ta[|ta| - 1] == a[|a| - 1];
    StripBlankThen(ta);
    StripKeeps(b, IsSpace);
  }

  /** With the intended reading every value line gives back its type and
      its (stripped, unquoted) value, whatever the value holds. */
  lemma GetIntendedRoundTrip(name: string, t: string, v: string)
    requires '=' !in name && IsTypeName(t)
    ensures ParseGetIntended(name + " = " + t + ": " + v) == Ok((Unquote(Strip(v, IsSpace)), t))
  {
    var line := name + " = " + t + ": " + v;
    FirstEquals(name, t + ": " + v);
    assert line == name + " = " + (t + ": " + v);
    assert " " + (t + ": " + v) == " " + t + ": " + v;
    assert ':' !in " " + t;
    ReadAtFirstColonBlank(" " + t, v);
    StripBlankThen(t);
  }

  /** With the intended reading a line with an empty value gives its type. */
  lemma IntendedTypeOnly(name: string, t: string)
    requires '=' !in name && IsTypeName(t)
    ensures ParseGetIntended(name + " = " + t + ":") == Ok(("", t))
  {
    FirstEquals(name, t + ":");
    assert name + " = " + t + ":" == name + " = " + (t + ":");
    assert " " + (t + ":") == " " + t + ":";
    RegionTypeOnly(t, true);
  }

  /** The first "=" of a line is the one after the name. */
  lemma FirstEquals(name: string, rest: string)
    requires '=' !in name
    ensures var line := name + " = " + rest;
      FindFirst(line, "=") == Some(|name| + 1) && line[|name| + 2..] == " " + rest
  {
    var line := name + " = " + rest;
    var e := |name| + 1;
    assert line[e..e + 1] == "=";
    forall j | 0 <= j < e ensures !OccursAt(line, "=", j) {
      assert line[j..j + 1][0] == line[j];
      if j < |name| {
        assert line[j] == name[j];
      }
    }
    FindFirstAt(line, "=", e);
    assert line[e + 1..] == " " + rest;
  }

  /** On every value line whose value holds neither "=" nor ": ", the
      reading as written and the intended one agree. */
  lemma AsWrittenAgrees(name: string, t: string, v: string)
    requires '=' !in name && IsTypeName(t) && IsTrimmed(v)
    requires '=' !in v && !Contains(v, ": ")
    ensures ParseGet(name + " = " + t + ": " + v) == ParseGetIntended(name + " = " + t + ": " + v)
    ensures ParseGet(name + " = " + t + ":") == ParseGetIntended(name + " = " + t + ":")
  {
    ParseValueLine(name, t, v);
    GetIntendedRoundTrip(name, t, v);
    StripKeeps(v, IsSpace);
    ParseTypeOnlyLine(name, t);
    IntendedTypeOnly(name, t);
  }

  // ---------------------------------------------------------------------
  // snmpset, snmpwalk, snmptable

  /** `snmpset(oid, data, datatype)`: `snmpcmd` with the read-write
      community and the type before the data. */
  function SnmpSet(oid: string, data: string, valueType: string, rc: int, captured: string): (r: Result<string>)
    ensures r.Ok? <==>
      rc == 0 && !Contains(Strip(captured, IsAsciiSpace), NoSuchObject)
      && !Contains(Strip(captured, IsAsciiSpace), NoSuchInstance)
    ensures r.Ok? ==> r.value == Strip(captured, IsAsciiSpace)
    ensures r.Err? ==> r == Classify(rc, Strip(captured, IsAsciiSpace), oid, ClientCommand("set", oid, Some(data), Some(valueType)))
    ensures r.Err? && r.error.CalledProcess? ==>
      r.error.cmd == ClientCommand("set", oid, Some(data), Some(valueType))
  {
    SnmpCmd("set", oid, Some(data), Some(valueType), rc, captured)
  }

  /** `snmpwalk(oid)`: `snmpcmd` with the read-only community. */
  function SnmpWalk(oid: string, rc: int, captured: string): (r: Result<string>)
    ensures r.Ok? <==>
      rc == 0 && !Contains(Strip(captured, IsAsciiSpace), NoSuchObject)
      && !Contains(Strip(captured, IsAsciiSpace), NoSuchInstance)
    ensures r.Ok? ==> r.value == Strip(captured, IsAsciiSpace)
    ensures r.Err? ==> r == Classify(rc, Strip(captured, IsAsciiSpace), oid, ClientCommand("walk", oid, None, None))
    ensures r.Err? && r.error.CalledProcess? ==>
      r.error.cmd == ClientCommand("walk", oid, None, None)
  {
    SnmpCmd("walk", oid, None, None, rc, captured)
  }

  /** `snmptable(oid)`: `snmpcmd` with the read-only community. */
  function SnmpTable(oid: string, rc: int, captured: string): (r: Result<string>)
    ensures r.Ok? <==>
      rc == 0 && !Contains(Strip(captured, IsAsciiSpace), NoSuchObject)
      && !Contains(Strip(captured, IsAsciiSpace), NoSuchInstance)
    ensures r.Ok? ==> r.value == Strip(captured, IsAsciiSpace)
    ensures r.Err? ==> r == Classify(rc, Strip(captured, IsAsciiSpace), oid, ClientCommand("table", oid, None, None))
    ensures r.Err? && r.error.CalledProcess? ==>
      r.error.cmd == ClientCommand("table", oid, None, None)
  {
    SnmpCmd("table", oid, None, None, rc, captured)
  }
}
