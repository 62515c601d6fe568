/** The few pieces of Python's string semantics that the test environment
    relies on: `str.split` with a one-character separator and its inverse
    `join`, substring search (`in`, `find`, `rfind`, and `re.search` with a
    pattern that has no metacharacters), `strip`/`rstrip`, `str(n)` for a
    natural number and `int(text)` for base-10 text. */
module Text {

  datatype Option<T> = None | Some(value: T)

  // ---------------------------------------------------------------------
  // Whitespace

  /** What `bytes.strip()` removes: space, tab, newline, carriage return,
      vertical tab and form feed. */
  predicate IsAsciiSpace(c: char) {
    c == ' ' || c == '\t' || c == '\n' || c == '\r' || c == '\U{B}' || c == '\U{C}'
  }

  /** What `str.strip()` and `int()` treat as whitespace (`str.isspace`). */
  predicate IsSpace(c: char) {
    IsAsciiSpace(c) || ('\U{1C}' <= c <= '\U{1F}') || c == '\U{85}' || c == '\U{A0}'
    || c == '\U{1680}' || ('\U{2000}' <= c <= '\U{200A}') || c == '\U{2028}'
    || c == '\U{2029}' || c == '\U{202F}' || c == '\U{205F}' || c == '\U{3000}'
  }

  predicate IsColon(c: char) { c == ':' }

  // ---------------------------------------------------------------------
  // Stripping

  /** `s.lstrip(chars)`: drop the longest prefix made of `drop` characters. */
  function LStrip(s: string, drop: char -> bool): (r: string)
    ensures |r| <= |s| && r == s[|s| - |r|..]
    ensures forall k :: 0 <= k < |s| - |r| ==> drop(s[k])
    ensures r != [] ==> !drop(r[0])
  {
    if s != [] && drop(s[0]) then
      var r := LStrip(s[1..], drop);
      assert forall k :: 1 <= k < |s| ==> s[k] == s[1..][k - 1];
      r
    else s
  }

  /** `s.rstrip(chars)`: drop the longest suffix made of `drop` characters. */
  function RStrip(s: string, drop: char -> bool): (r: string)
    ensures |r| <= |s| && r == s[..|r|]
    ensures forall k :: |r| <= k < |s| ==> drop(s[k])
    ensures r != [] ==> !drop(r[|r| - 1])
  {
    if s != [] && drop(s[|s| - 1]) then RStrip(s[..|s| - 1], drop) else s
  }

  /** `s.strip(chars)`: both ends. */
  function Strip(s: string, drop: char -> bool): (r: string)
    ensures |r| <= |s|
    ensures r != [] ==> !drop(r[0]) && !drop(r[|r| - 1])
    ensures (forall k :: 0 <= k < |s| ==> drop(s[k])) ==> r == []
  {
    var m := RStrip(s, drop);
    var r := LStrip(m, drop);
    assert r != [] ==> r[|r| - 1] == m[|m| - 1];
    assert m != [] ==> m[|m| - 1] == s[|m| - 1];
    r
  }

  /** The stripped text is a piece of the input with nothing but `drop`
      characters around it, and it neither starts nor ends with one. */
  lemma StripIsTrimmedInfix(s: string, drop: char -> bool)
    ensures var r := Strip(s, drop);
      var i := |RStrip(s, drop)| - |r|;
      0 <= i && i + |r| <= |s| && r == s[i..i + |r|]
      && (forall k :: 0 <= k < i ==> drop(s[k]))
      && (forall k :: i + |r| <= k < |s| ==> drop(s[k]))
      && (r != [] ==> !drop(r[0]) && !drop(r[|r| - 1]))
  {
    var m := RStrip(s, drop);
    var r := LStrip(m, drop);
    var i := |m| - |r|;
    assert r == m[i..];
    forall k | 0 <= k < i ensures drop(s[k]) {
      assert s[k] == m[k];
    }
    if r != [] {
      assert r[|r| - 1] == m[|m| - 1];
    }
  }

  /** Text that neither starts nor ends with a `drop` character is left alone. */
  lemma StripKeeps(s: string, drop: char -> bool)
    requires s != [] ==> !drop(s[0]) && !drop(s[|s| - 1])
    ensures Strip(s, drop) == s
  {
  }

  /** Trailing `drop` characters make no difference to `rstrip`. */
  lemma {:induction false} RStripAppend(s: string, tail: string, drop: char -> bool)
    requires forall k :: 0 <= k < |tail| ==> drop(tail[k])
    ensures RStrip(s + tail, drop) == RStrip(s, drop)
  {
    if tail != [] {
      var shorter := tail[..|tail| - 1];
      assert (s + tail)[..|s + tail| - 1] == s + shorter;
      RStripAppend(s, shorter, drop);
    } else {
      assert s + tail == s;
    }
  }

  // ---------------------------------------------------------------------
  // Substring search

  /** `p` occurs in `s` starting at index `i`. */
  predicate OccursAt(s: string, p: string, i: int) {
    0 <= i && i + |p| <= |s| && s[i..i + |p|] == p
  }

  lemma OccursAtTail(s: string, p: string, j: int)
    requires |s| > 0 && 0 <= j
    ensures OccursAt(s[1..], p, j) <==> OccursAt(s, p, j + 1)
  {
    if j + |p| <= |s| - 1 {
      assert s[1..][j..j + |p|] == s[j + 1..j + 1 + |p|];
    }
  }

  lemma OccursAtInit(s: string, p: string, j: int)
    requires |s| > 0
    ensures OccursAt(s[..|s| - 1], p, j) <==> OccursAt(s, p, j) && j + |p| < |s|
  {
    if 0 <= j && j + |p| <= |s| - 1 {
      assert s[..|s| - 1][j..j + |p|] == s[j..j + |p|];
    }
  }

  /** `s.find(p)`: the first index at which `p` occurs, if any. */
  function FindFirst(s: string, p: string): (r: Option<nat>)
    ensures r.Some? ==> OccursAt(s, p, r.value)
    ensures r.Some? ==> forall j :: 0 <= j < r.value ==> !OccursAt(s, p, j)
    ensures r.None? ==> forall j :: !OccursAt(s, p, j)
    decreases |s|
  {
    if |s| < |p| then None
    else if s[..|p|] == p then Some(0)
    else
      var rest := FindFirst(s[1..], p);
      forall j | 1 <= j ensures OccursAt(s, p, j) <==> OccursAt(s[1..], p, j - 1) {
        OccursAtTail(s, p, j - 1);
      }
      if rest.None? then None else Some(rest.value + 1)
  }

  /** `s.rfind(p)`: the last index at which `p` occurs, if any. */
  function FindLast(s: string, p: string): (r: Option<nat>)
    ensures r.Some? ==> OccursAt(s, p, r.value)
    ensures r.Some? ==> forall j :: r.value < j ==> !OccursAt(s, p, j)
    ensures r.None? ==> forall j :: !OccursAt(s, p, j)
    decreases |s|
  {
    if |s| < |p| then None
    else if s[|s| - |p|..] == p then Some(|s| - |p|)
    else
      var init := s[..|s| - 1];
      forall j ensures OccursAt(init, p, j) <==> OccursAt(s, p, j) && j + |p| < |s| {
        OccursAtInit(s, p, j);
      }
      FindLast(init, p)
  }

  /** `p in s`, and equally whether `re.search(p, s)` finds a match when `p`
      contains no regular-expression metacharacter. */
  predicate Contains(s: string, p: string) {
    FindFirst(s, p).Some?
  }

  /** An occurrence with none before it is what `find` reports. */
  lemma FindFirstAt(s: string, p: string, i: nat)
    requires OccursAt(s, p, i)
    requires forall j :: 0 <= j < i ==> !OccursAt(s, p, j)
    ensures FindFirst(s, p) == Some(i)
  {
  }

  /** An occurrence with none after it is what `rfind` reports. */
  lemma FindLastAt(s: string, p: string, i: nat)
    requires OccursAt(s, p, i)
    requires forall j :: i < j ==> !OccursAt(s, p, j)
    ensures FindLast(s, p) == Some(i)
  {
  }

  lemma ContainsWhereOccurs(s: string, p: string, i: int)
    requires OccursAt(s, p, i)
    ensures Contains(s, p)
  {
  }

  /** A pattern found in text is found in any text around it. */
  lemma ContainsInContext(before: string, p: string, after: string)
    ensures Contains(before + p + after, p)
  {
    var s := before + p + after;
    assert s[|before|..|before| + |p|] == p;
    ContainsWhereOccurs(s, p, |before|);
  }

  /** Whatever character a pattern holds is in every text that contains it. */
  lemma ContainsCharOfPattern(s: string, p: string, k: nat)
    requires Contains(s, p) && k < |p|
    ensures Contains(s, [p[k]])
  {
    var i := FindFirst(s, p).value;
    assert s[i..i + |p|][k] == s[i + k];
    assert s[i + k..i + k + 1] == [p[k]];
    ContainsWhereOccurs(s, [p[k]], i + k);
  }

  /** A one-character pattern occurs exactly where that character is. */
  lemma ContainsChar(s: string, c: char)
    ensures Contains(s, [c]) <==> c in s
  {
    if c in s {
      var i :| 0 <= i < |s| && s[i] == c;
      assert s[i..i + 1] == [c];
      ContainsWhereOccurs(s, [c], i);
    }
    if Contains(s, [c]) {
      var i := FindFirst(s, [c]).value;
      assert s[i..i + 1][0] == s[i];
    }
  }

  /** Wherever a pattern occurs, each of its characters is in the text. */
  lemma PatternCharIn(s: string, p: string, k: nat)
    requires k < |p|
    ensures Contains(s, p) ==> p[k] in s
  {
    if Contains(s, p) {
      ContainsCharOfPattern(s, p, k);
      ContainsChar(s, p[k]);
    }
  }

  // ---------------------------------------------------------------------
  // Splitting on one character, and joining back

  /** `s.split(c)`: the pieces between occurrences of `c`, never an empty list. */
  function Split(s: string, c: char): (r: seq<string>)
    ensures |r| >= 1
    ensures forall k :: 0 <= k < |r| ==> c !in r[k]
  {
    if s == [] then [""]
    else
      var rest := Split(s[1..], c);
      if s[0] == c then [""] + rest
      else [[s[0]] + rest[0]] + rest[1..]
  }

  /** `c.join(ws)`. */
  function Join(ws: seq<string>, c: char): string
  {
    if |ws| == 0 then ""
    else if |ws| == 1 then ws[0]
    else ws[0] + [c] + Join(ws[1..], c)
  }

  /** Joining one more piece adds the separator and that piece at the end. */
  lemma {:induction false} JoinSnoc(ws: seq<string>, w: string, c: char)
    requires |ws| >= 1
    ensures Join(ws + [w], c) == Join(ws, c) + [c] + w
  {
    if |ws| > 1 {
      assert (ws + [w])[1..] == ws[1..] + [w];
      JoinSnoc(ws[1..], w, c);
    } else {
      assert (ws + [w])[1..] == [w];
    }
  }

  /** Joining the pieces of a split gives back the text. */
  lemma {:induction false} JoinSplit(s: string, c: char)
    ensures Join(Split(s, c), c) == s
  {
    if s != [] {
      var rest := Split(s[1..], c);
      JoinSplit(s[1..], c);
      if s[0] == c {
        assert Split(s, c) == [""] + rest;
        assert ([""] + rest)[1..] == rest;
        assert Join([""] + rest, c) == "" + [c] + Join(rest, c);
      } else {
        var ws := Split(s, c);
        assert ws == [[s[0]] + rest[0]] + rest[1..];
        if |rest| == 1 {
          assert Join(rest, c) == rest[0];
          assert Join(ws, c) == [s[0]] + rest[0];
        } else {
          assert ws[1..] == rest[1..];
          assert Join(rest, c) == rest[0] + [c] + Join(rest[1..], c);
          assert Join(ws, c) == [s[0]] + rest[0] + [c] + Join(rest[1..], c);
        }
        assert s == [s[0]] + s[1..];
      }
    }
  }

  /** A piece free of the separator runs into the first piece of what follows. */
  lemma {:induction false} SplitPrefix(x: string, s: string, c: char)
    requires c !in x
    ensures Split(x + s, c) == [x + Split(s, c)[0]] + Split(s, c)[1..]
  {
    if x == [] {
      assert x + s == s;
      assert x + Split(s, c)[0] == Split(s, c)[0];
      assert Split(s, c) == [Split(s, c)[0]] + Split(s, c)[1..];
    } else {
      assert (x + s)[1..] == x[1..] + s;
      assert (x + s)[0] == x[0] != c;
      SplitPrefix(x[1..], s, c);
      assert x == [x[0]] + x[1..];
      assert [x[0]] + (x[1..] + Split(s, c)[0]) == x + Split(s, c)[0];
    }
  }

  /** `split` yields a second piece exactly when the separator occurs. */
  lemma SplitCount(s: string, c: char)
    ensures |Split(s, c)| >= 2 <==> c in s
  {
    JoinSplit(s, c);
    if c !in s {
      SplitJoin([s], c);
    }
  }

  /** Splitting the join of separator-free pieces gives back the pieces. */
  lemma {:induction false} SplitJoin(ws: seq<string>, c: char)
    requires |ws| >= 1
    requires forall k :: 0 <= k < |ws| ==> c !in ws[k]
    ensures Split(Join(ws, c), c) == ws
  {
    if |ws| == 1 {
      SplitPrefix(ws[0], "", c);
      assert ws[0] + "" == ws[0];
    } else {
      var tail := Join(ws[1..], c);
      SplitJoin(ws[1..], c);
      assert ([c] + tail)[1..] == tail;
      assert Split([c] + tail, c) == [""] + ws[1..];
      assert ws[0] + [c] + tail == ws[0] + ([c] + tail);
      SplitPrefix(ws[0], [c] + tail, c);
      assert ws[0] + "" == ws[0];
    }
  }

  /** Where a pattern is absent it occurs at no index. */
  lemma AbsentNowhere(s: string, p: string, i: int)
    requires !Contains(s, p)
    ensures !OccursAt(s, p, i)
  {
  }

  /** In `x + ": " + y` with no ": " in `y`, the last ": " is the one after `x`.
      The proof is direct; the hypotheses automatic induction would add
      only swamp the solver, so it is switched off. */
  lemma {:induction false} LastColonBlank(x: string, y: string)
    requires !Contains(y, ": ")
    ensures FindLast(x + ": " + y, ": ") == Some(|x|)
  {
    var s := x + ": " + y;
    var i := |x|;
    assert s[i..i + 2] == ": ";
    forall j | i < j ensures !OccursAt(s, ": ", j) {
      if j + 2 <= |s| {
        if j == i + 1 {
          assert s[j..j + 2][0] == s[j] == ' ';
        } else {
          assert s[j..j + 2] == y[j - i - 2..j - i];
          AbsentNowhere(y, ": ", j - i - 2);
        }
      }
    }
    FindLastAt(s, ": ", i);
  }

  /** In `x + ": " + y` with no ':' in `x`, the first ": " is the one after `x`. */
  lemma FirstColonBlank(x: string, y: string)
    requires ':' !in x
    ensures FindFirst(x + ": " + y, ": ") == Some(|x|)
  {
    var s := x + ": " + y;
    var i := |x|;
    assert s[i..i + 2] == ": ";
    forall j | 0 <= j < i ensures !OccursAt(s, ": ", j) {
      assert s[j..j + 2][0] == s[j] == x[j];
    }
    FindFirstAt(s, ": ", i);
  }

  /** A first piece free of the separator is split off whole. */
  lemma SplitAfterPiece(x: string, s: string, c: char)
    requires c !in x
    ensures Split(x + [c] + s, c) == [x] + Split(s, c)
  {
    var cs := [c] + s;
    assert cs[0] == c && cs[1..] == s;
    assert Split(cs, c) == [""] + Split(s, c);
    SplitPrefix(x, cs, c);
    assert x + "" == x;
    assert x + [c] + s == x + cs;
  }

  /** Text without the separator is one piece. */
  lemma SplitWithout(s: string, c: char)
    requires c !in s
    ensures Split(s, c) == [s]
  {
    SplitJoin([s], c);
  }

  // ---------------------------------------------------------------------
  // Decimal numbers

  predicate IsDigit(c: char) { '0' <= c <= '9' }

  function DigitChar(d: nat): char
    requires d < 10
  {
    ('0' as int + d) as char
  }

  /** `str(n)` for a natural number. */
  function Decimal(n: nat): (r: string)
    ensures |r| >= 1 && forall k :: 0 <= k < |r| ==> IsDigit(r[k])
  {
    if n < 10 then [DigitChar(n)] else Decimal(n / 10) + [DigitChar(n % 10)]
  }

  /** The value of a run of digits and underscores, the underscores ignored. */
  function DigitsValue(s: string): nat
    requires forall k :: 0 <= k < |s| ==> IsDigit(s[k]) || s[k] == '_'
  {
    if s == [] then 0
    else if s[|s| - 1] == '_' then DigitsValue(s[..|s| - 1])
    else
      assert IsDigit(s[|s| - 1]);
      10 * DigitsValue(s[..|s| - 1]) + (s[|s| - 1] as int - '0' as int)
  }

  /** What `int()` accepts as the digits of a base-10 literal: digits, with
      single underscores allowed between two digits. */
  predicate IsDigitRun(s: string) {
    |s| >= 1 && IsDigit(s[0]) && IsDigit(s[|s| - 1])
    && (forall k :: 0 <= k < |s| ==> IsDigit(s[k]) || s[k] == '_')
    && (forall k :: 0 <= k < |s| - 1 ==> s[k] == '_' ==> s[k + 1] != '_')
  }

  /** `int(text)` with base 10 (`None` where Python raises `ValueError`):
      surrounding whitespace, an optional sign, then a digit run. */
  function ParseInt(text: string): (r: Option<int>)
    ensures (forall k :: 0 <= k < |text| ==> IsSpace(text[k])) ==> r.None?
    ensures r.Some? ==> var s := Strip(text, IsSpace); |s| >= 1 && IsDigit(s[|s| - 1])
    ensures r.Some? && r.value < 0 ==> Strip(text, IsSpace)[0] == '-'
  {
    var s := Strip(text, IsSpace);
    var negative := s != [] && s[0] == '-';
    var body := if s != [] && (s[0] == '-' || s[0] == '+') then s[1..] else s;
    if IsDigitRun(body) then
      var magnitude: int := DigitsValue(body);
      Some(if negative then -magnitude else magnitude)
    else None
  }

  lemma {:induction false} DecimalValue(n: nat)
    ensures DigitsValue(Decimal(n)) == n
  {
    if n >= 10 {
      DecimalValue(n / 10);
      var s := Decimal(n);
      assert s[..|s| - 1] == Decimal(n / 10);
    }
  }

  /** What `str(n)` writes, `int()` reads back, also with a line break after it. */
  lemma ParseDecimal(n: nat, trailer: string)
    requires forall k :: 0 <= k < |trailer| ==> IsSpace(trailer[k])
    ensures ParseInt(Decimal(n) + trailer) == Some(n)
  {
    var d := Decimal(n);
    StripDecimal(n, trailer);
    assert d[0] != '-' && d[0] != '+';
    DecimalIsDigitRun(n);
    DecimalValue(n);
  }

  lemma StripDecimal(n: nat, trailer: string)
    requires forall k :: 0 <= k < |trailer| ==> IsSpace(trailer[k])
    ensures Strip(Decimal(n) + trailer, IsSpace) == Decimal(n)
  {
    var d := Decimal(n);
    RStripAppend(d, trailer, IsSpace);
    DigitIsNotSpace(d[0]);
    DigitIsNotSpace(d[|d| - 1]);
    StripKeeps(d, IsSpace);
    assert Strip(d + trailer, IsSpace) == LStrip(RStrip(d, IsSpace), IsSpace) == Strip(d, IsSpace);
  }

  lemma DigitIsNotSpace(c: char)
    requires IsDigit(c)
    ensures !IsSpace(c)
  {
  }

  lemma DecimalIsDigitRun(n: nat)
    ensures IsDigitRun(Decimal(n))
  {
    var d := Decimal(n);
    assert forall k :: 0 <= k < |d| ==> d[k] != '_';
  }
}
