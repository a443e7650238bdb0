/**
 * The backend's start-up check for an attached Android device: it runs
 * `adb devices` and scans the text it prints, one line per device
 * ("<serial>\t<state>") after a header line. Running the command is an
 * input here (AdbRun); the scan itself is modelled as written.
 */
module DeviceScan {
  import opened Text

  /** The first line `adb devices` prints. */
  const Header: string := "List of devices attached"

  /** The adb state of a device that is online and authorised. */
  const Online: string := "device"

  /** What running `adb devices` produced: it could not be run (adb missing
      from PATH or exiting with an error), or it printed `stdout`. */
  datatype AdbRun = AdbFailed | AdbOutput(stdout: string)

  /** A line that reports a usable device: after trimming it is not blank,
      it is not the header, and its second field is the state "device". */
  predicate Qualifies(line: string) {
    var t := Trim(line, IsGoSpace);
    t != [] && !(Header <= t)
    && var f := Fields(t, IsGoSpace); |f| >= 2 && f[1] == Online
  }

  /** Some element of `xs` satisfies `p`. */
  predicate SomeSatisfies(xs: seq<string>, p: string -> bool) {
    exists i :: 0 <= i < |xs| && p(xs[i])
  }

  /** Some line of the output reports a usable device. */
  predicate AnyQualifies(lines: seq<string>) {
    SomeSatisfies(lines, Qualifies)
  }

  /** The loop of isDeviceConnected: it visits the lines in order, skips
      blank and header lines, and returns true at the first line whose
      second field is "device". The early return finds a qualifying line
      exactly when one exists. */
  method ScanLines(lines: seq<string>) returns (connected: bool)
    ensures connected <==> AnyQualifies(lines)
  {
    for i := 0 to |lines|
      invariant !AnyQualifies(lines[..i])
    {
      var line := Trim(lines[i], IsGoSpace);
      if line == [] || Header <= line {
        AnyQualifiesExtend(lines, i);
        continue;
      }
      var fields := Fields(line, IsGoSpace);
      if |fields| >= 2 && fields[1] == Online {
        AnyQualifiesExtend(lines, i);
        AnyQualifiesPrefix(lines, i + 1);
        return true;
      }
      AnyQualifiesExtend(lines, i);
    }
    assert lines[..|lines|] == lines;
    return false;
  }

  /** The lines before `i + 1` hold a qualifying line exactly when the lines
      before `i` do or line `i` qualifies. */
  lemma AnyQualifiesExtend(lines: seq<string>, i: nat)
    requires i < |lines|
    ensures AnyQualifies(lines[..i + 1]) <==> AnyQualifies(lines[..i]) || Qualifies(lines[i])
  {
    SomeExtend(lines, i, Qualifies);
  }

  /** A qualifying line among the first `n` is a qualifying line. */
  lemma AnyQualifiesPrefix(lines: seq<string>, n: nat)
    requires n <= |lines| && AnyQualifies(lines[..n])
    ensures AnyQualifies(lines)
  {
    SomePrefix(lines, n, Qualifies);
  }

  lemma SomeExtend(xs: seq<string>, i: nat, p: string -> bool)
    requires i < |xs|
    ensures SomeSatisfies(xs[..i + 1], p) <==> SomeSatisfies(xs[..i], p) || p(xs[i])
  {
    var a, b := xs[..i], xs[..i + 1];
    assert b == a + [xs[i]];
    if SomeSatisfies(b, p) {
      var k :| 0 <= k < |b| && p(b[k]);
      if k < i { assert a[k] == b[k]; }
    }
    if SomeSatisfies(a, p) {
      var k :| 0 <= k < |a| && p(a[k]);
      assert b[k] == a[k];
    }
    if p(xs[i]) {
      assert b[i] == xs[i];
    }
  }

  lemma SomePrefix(xs: seq<string>, n: nat, p: string -> bool)
    requires n <= |xs| && SomeSatisfies(xs[..n], p)
    ensures SomeSatisfies(xs, p)
  {
    var k :| 0 <= k < n && p(xs[..n][k]);
    assert xs[k] == xs[..n][k];
  }

  /** isDeviceConnected: false when adb could not be run; otherwise the
      scan of the output split at every newline. */
  method IsDeviceConnected(run: AdbRun) returns (connected: bool)
    ensures connected <==> run.AdbOutput? && AnyQualifies(Split(run.stdout, '\n'))
  {
    match run
    case AdbFailed =>
      connected := false;
    case AdbOutput(stdout) =>
      var lines := Split(stdout, '\n');
      connected := ScanLines(lines);
  }

  /** The blank test is redundant and trimming does not change the fields:
      a line qualifies exactly when its trimmed text does not start with the
      header and the second whitespace-separated field of the raw line is
      "device". In particular a line with fewer than two fields never
      qualifies. */
  lemma QualifiesIff(line: string)
    ensures Qualifies(line) <==>
      !(Header <= Trim(line, IsGoSpace))
      && |Fields(line, IsGoSpace)| >= 2 && Fields(line, IsGoSpace)[1] == Online
  {
    FieldsOfTrim(line, IsGoSpace);
  }

  /** A device in state "unauthorized" or "offline" is reported by its line
      but never counts as connected. */
  lemma UnusableStateNeverQualifies(line: string)
    requires |Fields(line, IsGoSpace)| >= 2
    requires Fields(line, IsGoSpace)[1] in {"unauthorized", "offline"}
    ensures !Qualifies(line)
  {
    QualifiesIff(line);
  }

  /** A line that does not qualify can be added anywhere in the output
      without changing the result. */
  lemma NonQualifyingLineIgnored(before: seq<string>, line: string, after: seq<string>)
    requires !Qualifies(line)
    ensures AnyQualifies(before + [line] + after) == AnyQualifies(before + after)
  {
    SomeInsert(before, line, after, Qualifies);
  }

  lemma SomeInsert(before: seq<string>, x: string, after: seq<string>, p: string -> bool)
    requires !p(x)
    ensures SomeSatisfies(before + [x] + after, p) == SomeSatisfies(before + after, p)
  {
    var with := before + [x] + after;
    var without := before + after;
    assert |with| == |without| + 1;
    assert forall i :: 0 <= i < |before| ==> with[i] == without[i];
    assert forall i :: |before| < i < |with| ==> with[i] == without[i - 1];
    assert with[|before|] == x;
    if SomeSatisfies(with, p) {
      var i :| 0 <= i < |with| && p(with[i]);
      assert p(without[if i < |before| then i else i - 1]);
    }
    if SomeSatisfies(without, p) {
      var i :| 0 <= i < |without| && p(without[i]);
      assert p(with[if i < |before| then i else i + 1]);
    }
  }

  /** The result does not depend on the order of the lines: any
      rearrangement of the output gives the same answer. */
  lemma OrderIrrelevant(a: seq<string>, b: seq<string>)
    requires multiset(a) == multiset(b)
    ensures AnyQualifies(a) == AnyQualifies(b)
  {
    SomePermuted(a, b, Qualifies);
  }

  lemma SomePermuted(a: seq<string>, b: seq<string>, p: string -> bool)
    requires multiset(a) == multiset(b)
    ensures SomeSatisfies(a, p) == SomeSatisfies(b, p)
  {
    if SomeSatisfies(a, p) {
      var i :| 0 <= i < |a| && p(a[i]);
      assert a[i] in multiset(b);
      var j :| 0 <= j < |b| && b[j] == a[i];
    }
    if SomeSatisfies(b, p) {
      var j :| 0 <= j < |b| && p(b[j]);
      assert b[j] in multiset(a);
      var i :| 0 <= i < |a| && a[i] == b[j];
    }
  }

  /** Output made only of blank lines and header lines reports no device;
      in particular empty output does not. */
  lemma OnlyHeaderAndBlanks(lines: seq<string>)
    requires forall k :: 0 <= k < |lines| ==>
      var t := Trim(lines[k], IsGoSpace); t == [] || Header <= t
    ensures !AnyQualifies(lines)
  {
  }

  lemma EmptyOutputNotConnected()
    ensures !AnyQualifies(Split("", '\n'))
  {
    assert Split("", '\n') == [""];
    assert Trim("", IsGoSpace) == "";
  }

  /** A line that is already trimmed and is the serial and state joined by
      a tab. */
  lemma {:induction false} DeviceLine(serial: string, state: string)
    requires serial != [] && NoSpace(serial, IsGoSpace) && state != [] && NoSpace(state, IsGoSpace)
    ensures var line := serial + "\t" + state;
      Trim(line, IsGoSpace) == line && Fields(line, IsGoSpace) == [serial, state]
  {
    var line := serial + "\t" + state;
    assert Join([serial, state], '\t') == line;
    FieldsOfJoin([serial, state], '\t', IsGoSpace);
    assert line[0] == serial[0] && line[|line| - 1] == state[|state| - 1];
    TrimUnique([], line, [], IsGoSpace);
    assert [] + line + [] == line;
  }

  /** A device line "<serial>\t<state>" as adb prints it counts exactly when
      its state is "device". */
  lemma {:induction false} DeviceLineQualifiesIff(serial: string, state: string)
    requires serial != [] && NoSpace(serial, IsGoSpace) && state != [] && NoSpace(state, IsGoSpace)
    ensures Qualifies(serial + "\t" + state) <==> state == Online
  {
    DeviceLine(serial, state);
    DeviceLineNotHeader(serial, state);
  }

  /** The serial and the state may be separated by any non-empty run of
      whitespace: the fields are still exactly the serial and the state, so
      such a line qualifies exactly when it is not a header line and the
      state is "device". */
  lemma {:induction false} SpacedDeviceLineQualifiesIff(serial: string, gap: string, state: string)
    requires serial != [] && NoSpace(serial, IsGoSpace) && state != [] && NoSpace(state, IsGoSpace)
    requires gap != [] && AllSpace(gap, IsGoSpace)
    ensures var line := serial + gap + state;
      Fields(line, IsGoSpace) == [serial, state]
      && (Qualifies(line) <==> !(Header <= Trim(line, IsGoSpace)) && state == Online)
  {
    var line := serial + gap + state;
    FieldsCons(serial, gap, state, IsGoSpace);
    FieldsOfWord(state, IsGoSpace);
    assert [serial] + [state] == [serial, state];
    QualifiesIff(line);
  }

  /** The header holds a space at index 4, which no device line does. */
  lemma {:induction false} DeviceLineNotHeader(serial: string, state: string)
    requires NoSpace(serial, IsGoSpace) && NoSpace(state, IsGoSpace)
    ensures !(Header <= serial + "\t" + state)
  {
    var line := serial + "\t" + state;
    if |line| > 4 {
      assert line[4] != ' ' by {
        if |serial| > 4 {
          assert line[4] == serial[4];
        } else if |serial| < 4 {
          assert line[4] == state[3 - |serial|];
        } else {
          assert line[4] == '\t';
        }
      }
      assert Header[4] == ' ';
    }
  }
}
