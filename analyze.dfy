/**
 * iptrap-analyze.py up to its table: the command-line flag loop, the log
 * line pattern, the date taken from each matched line, the loop that fills
 * the four column lists, and the table built from them and deduplicated.
 *
 * The script keeps its state in module-level variables; here they are the
 * fields of one Analysis object, and each stage is a method that updates
 * them as the script does.
 */
module Analyze {
  import opened Wrappers
  import opened Decimal
  import opened Text
  import opened Frame

  // ----- The log line pattern (line 31) --------------------------------------

  /** The four named groups of the pattern. */
  datatype Fields = Fields(datetime: string, protocol: string, ip: string, port: string)

  /** A character of the class `[\d\.]`. */
  predicate IsDotChar(c: char) {
    IsDigit(c) || c == '.'
  }

  /** A character of the class `[\da-f:]`. */
  predicate IsHexColonChar(c: char) {
    IsDigit(c) || ('a' <= c <= 'f') || c == ':'
  }

  /** What the ip group `[\d\.]+|[\da-f:]+` can capture. */
  predicate IsIpToken(ip: string) {
    && |ip| > 0
    && ((forall i :: 0 <= i < |ip| ==> IsDotChar(ip[i])) || (forall i :: 0 <= i < |ip| ==> IsHexColonChar(ip[i])))
  }

  /** What each group can capture: a datetime without ']', the tag ipv4 or ipv6, an ip token, a digit run. */
  predicate WellFormed(f: Fields) {
    && |f.datetime| > 0 && ']' !in f.datetime
    && (f.protocol == "ipv4" || f.protocol == "ipv6")
    && IsIpToken(f.ip)
    && |f.port| > 0 && AllDigits(f.port)
  }

  /** The text the pattern matches for the groups `f`. */
  function Shape(f: Fields): string {
    "[" + f.datetime + "] [" + f.protocol + "] Caught " + f.ip + " on port " + f.port
  }

  /** The longest prefix of `s` made of digits: what the greedy `\d+` takes. */
  function TakeDigits(s: string): (t: string)
    ensures |t| <= |s| && AllDigits(t)
  {
    if s == [] || !IsDigit(s[0]) then [] else [s[0]] + TakeDigits(s[1..])
  }

  lemma {:induction false} TakeDigitsPrefix(s: string)
    ensures var t := TakeDigits(s); t == s[..|t|] && (|t| < |s| ==> !IsDigit(s[|t|]))
  {
    if s != [] && IsDigit(s[0]) {
      TakeDigitsPrefix(s[1..]);
    }
  }

  lemma {:induction false} TakeDigitsOf(p: string, rest: string)
    requires AllDigits(p)
    requires rest == [] || !IsDigit(rest[0])
    ensures TakeDigits(p + rest) == p
  {
    if p != [] {
      TakeDigitsOf(p[1..], rest);
      assert (p + rest)[1..] == p[1..] + rest;
    } else {
      assert p + rest == rest;
    }
  }

  /** `\[(?P<datetime>[^\]]+)\]`: the datetime group and the text after the closing bracket. */
  function MatchDatetime(line: string): (r: Option<(string, string)>)
    ensures r.Some? ==> |r.value.0| > 0 && ']' !in r.value.0
  {
    if line == [] || line[0] != '[' then None
    else
      var dt := TakeUntil(line[1..], ']');
      if dt == [] || |dt| == |line| - 1 then None else Some((dt, line[|dt| + 2..]))
  }

  lemma MatchDatetimeSplit(line: string)
    requires MatchDatetime(line).Some?
    ensures line == "[" + MatchDatetime(line).value.0 + "]" + MatchDatetime(line).value.1
  {
    var dt := TakeUntil(line[1..], ']');
    TakeUntilPrefix(line[1..], ']');
    assert line[1..] == dt + line[|dt| + 1..];
  }

  lemma MatchDatetimeOf(dt: string, b: string)
    requires |dt| > 0 && ']' !in dt
    ensures MatchDatetime("[" + dt + "]" + b) == Some((dt, b))
  {
    var line := "[" + dt + "]" + b;
    assert line[1..] == dt + "]" + b;
    TakeUntilOf(dt, ']', b);
    assert line[|dt| + 2..] == b;
  }

  /** ` \[(?P<protocol>ipv[46])\] Caught `: the protocol group and the text after it. */
  function MatchTag(b: string): (r: Option<(string, string)>)
    ensures r.Some? ==> r.value.0 == "ipv4" || r.value.0 == "ipv6"
  {
    if |b| >= 15 && b[..2] == " [" && (b[2..6] == "ipv4" || b[2..6] == "ipv6") && b[6..15] == "] Caught " then
      Some((b[2..6], b[15..]))
    else
      None
  }

  lemma MatchTagSplit(b: string)
    requires MatchTag(b).Some?
    ensures b == " [" + MatchTag(b).value.0 + "] Caught " + MatchTag(b).value.1
  {
    assert b == b[..2] + b[2..6] + b[6..15] + b[15..];
  }

  lemma MatchTagOf(protocol: string, c: string)
    requires protocol == "ipv4" || protocol == "ipv6"
    ensures MatchTag(" [" + protocol + "] Caught " + c) == Some((protocol, c))
  {
    var b := " [" + protocol + "] Caught " + c;
    assert b[..2] == " [" && b[2..6] == protocol && b[6..15] == "] Caught " && b[15..] == c;
  }

  /**
   * `(?P<ip>[\d\.]+|[\da-f:]+) on port `: neither class holds a space, so
   * the group is the text up to the first space, all of it of one class.
   */
  function MatchIp(c: string): (r: Option<(string, string)>)
    ensures r.Some? ==> IsIpToken(r.value.0)
  {
    var ip := TakeUntil(c, ' ');
    if IsIpToken(ip) && |ip| + 9 <= |c| && c[|ip|..|ip| + 9] == " on port " then
      Some((ip, c[|ip| + 9..]))
    else
      None
  }

  lemma MatchIpSplit(c: string)
    requires MatchIp(c).Some?
    ensures c == MatchIp(c).value.0 + " on port " + MatchIp(c).value.1
  {
    var ip := TakeUntil(c, ' ');
    TakeUntilPrefix(c, ' ');
    assert c == ip + c[|ip|..|ip| + 9] + c[|ip| + 9..];
  }

  lemma MatchIpOf(ip: string, d: string)
    requires IsIpToken(ip)
    ensures MatchIp(ip + " on port " + d) == Some((ip, d))
  {
    var c := ip + " on port " + d;
    assert ' ' !in ip;
    assert c == ip + [' '] + ("on port " + d);
    TakeUntilOf(ip, ' ', "on port " + d);
    assert c[|ip|..|ip| + 9] == " on port " && c[|ip| + 9..] == d;
  }

  /** `(?P<port>\d+)`: the greedy digit run, at least one digit. */
  function MatchPort(d: string): (r: Option<string>)
    ensures r.Some? ==> |r.value| > 0 && AllDigits(r.value)
  {
    var port := TakeDigits(d);
    if port == [] then None else Some(port)
  }

  /**
   * The pattern of line 31 matched at the start of `line`. The datetime group
   * runs to the first ']'; the ip group runs to the first space; the port
   * group is the greedy digit run; whatever follows is not looked at.
   */
  function MatchLine(line: string): (r: Option<Fields>)
    ensures r.Some? ==> WellFormed(r.value)
  {
    match MatchDatetime(line)
    case None => None
    case Some((datetime, b)) =>
      match MatchTag(b)
      case None => None
      case Some((protocol, c)) =>
        match MatchIp(c)
        case None => None
        case Some((ip, d)) =>
          match MatchPort(d)
          case None => None
          case Some(port) => Some(Fields(datetime, protocol, ip, port))
  }

  /** A line the pattern matches starts with the text of the groups, and no digit follows the port. */
  lemma MatchLineSound(line: string)
    requires MatchLine(line).Some?
    ensures var f := MatchLine(line).value;
      && StartsWith(line, Shape(f))
      && (|line| > |Shape(f)| ==> !IsDigit(line[|Shape(f)|]))
  {
    var f := MatchLine(line).value;
    var (dt, b) := MatchDatetime(line).value;
    var (protocol, c) := MatchTag(b).value;
    var (ip, d) := MatchIp(c).value;
    assert f == Fields(dt, protocol, ip, TakeDigits(d));
    MatchDatetimeSplit(line);
    MatchTagSplit(b);
    MatchIpSplit(c);
    TakeDigitsPrefix(d);
    var rest := d[|f.port|..];
    ShapeSplit(f, b, c, d, rest);
    assert line == Shape(f) + rest;
    assert |line| > |Shape(f)| ==> line[|Shape(f)|] == rest[0];
  }

  /** The pieces the four stages peel off make up the groups' text. */
  // A proof step only; it models nothing of its own.
  lemma ShapeSplit(f: Fields, b: string, c: string, d: string, rest: string)
    requires d == f.port + rest
    requires c == f.ip + " on port " + d
    requires b == " [" + f.protocol + "] Caught " + c
    ensures "[" + f.datetime + "]" + b == Shape(f) + rest
  {
  }

  /** Every text of that shape matches, whatever follows the port provided it is not a digit. */
  lemma MatchLineComplete(f: Fields, rest: string)
    requires WellFormed(f)
    requires rest == [] || !IsDigit(rest[0])
    ensures MatchLine(Shape(f) + rest) == Some(f)
  {
    var d := f.port + rest;
    var c := f.ip + " on port " + d;
    var b := " [" + f.protocol + "] Caught " + c;
    var line := Shape(f) + rest;
    ShapeSplit(f, b, c, d, rest);
    MatchDatetimeOf(f.datetime, b);
    assert MatchDatetime(line) == Some((f.datetime, b));
    MatchTagOf(f.protocol, c);
    MatchIpOf(f.ip, d);
    TakeDigitsOf(f.port, rest);
    assert MatchPort(d) == Some(f.port);
  }

  // ----- One line of the parse loop (lines 66-72) -------------------------

  /** What the loop body does with one line: nothing, one row, or IndexError from `split()[0]`. */
  datatype LineOutcome = NoMatch | Parsed(row: Row) | DateMissing

  /** The date: the first whitespace-separated word of the datetime group. */
  function DateOf(datetime: string): (date: Option<string>)
    ensures date.None? <==> forall i :: 0 <= i < |datetime| ==> IsSpace(datetime[i])
    ensures date.Some? ==> |date.value| > 0 && NoSpace(date.value)
  {
    FirstWordBlank(datetime);
    FirstWord(datetime)
  }

  /** The outcome of one line; a parsed row has a date without white space and the group shapes of WellFormed. */
  function ClassifyLine(line: string): (outcome: LineOutcome)
    ensures outcome.NoMatch? <==> MatchLine(line).None?
    ensures outcome.Parsed? ==> var r := outcome.row;
      && |r.date| > 0 && NoSpace(r.date)
      && (r.protocol == "ipv4" || r.protocol == "ipv6")
      && IsIpToken(r.ip) && |r.port| > 0 && AllDigits(r.port)
  {
    match MatchLine(line)
    case None => NoMatch
    case Some(f) =>
      match DateOf(f.datetime)
      case None => DateMissing
      case Some(date) => Parsed(Row(date, f.ip, f.protocol, f.port))
  }

  /** The rows the loop appends and whether it stopped on IndexError. */
  datatype ParseRun = ParseRun(rows: seq<Row>, failed: bool)

  /** The loop over the lines' outcomes: the rows, in order, up to the first IndexError. */
  function RunOutcomes(outcomes: seq<LineOutcome>): (p: ParseRun)
    ensures |p.rows| <= |outcomes|
  {
    if outcomes == [] then ParseRun([], false)
    else
      var p := RunOutcomes(outcomes[..|outcomes| - 1]);
      if p.failed then p
      else
        match outcomes[|outcomes| - 1]
        case NoMatch => p
        case DateMissing => ParseRun(p.rows, true)
        case Parsed(row) => ParseRun(p.rows + [row], false)
  }

  /** The outcome of each line, in order. */
  function ClassifyAll(lines: seq<string>): (outcomes: seq<LineOutcome>)
    ensures |outcomes| == |lines|
    ensures forall i :: 0 <= i < |lines| ==> outcomes[i] == ClassifyLine(lines[i])
  {
    seq(|lines|, i requires 0 <= i < |lines| => ClassifyLine(lines[i]))
  }

  /** The parse loop over the lines of the log. */
  function ParseLog(lines: seq<string>): (p: ParseRun)
    ensures |p.rows| <= |lines|
  {
    RunOutcomes(ClassifyAll(lines))
  }

  lemma {:induction false} RunOutcomesFails(outcomes: seq<LineOutcome>)
    ensures RunOutcomes(outcomes).failed <==> DateMissing in outcomes
    decreases |outcomes|
  {
    if outcomes != [] {
      var init := outcomes[..|outcomes| - 1];
      RunOutcomesFails(init);
      assert outcomes == init + [outcomes[|outcomes| - 1]];
    }
  }

  /** The loop stops exactly when some line matches with a blank datetime. */
  lemma ParseLogFails(lines: seq<string>)
    ensures ParseLog(lines).failed <==> exists i :: 0 <= i < |lines| && ClassifyLine(lines[i]).DateMissing?
  {
    var outcomes := ClassifyAll(lines);
    RunOutcomesFails(outcomes);
    if DateMissing in outcomes {
      var i :| 0 <= i < |outcomes| && outcomes[i] == DateMissing;
      assert ClassifyLine(lines[i]).DateMissing?;
    }
  }

  /** With every line parsed, the loop yields their rows, in order, and does not die. */
  lemma {:induction false} RunOutcomesParsed(rows: seq<Row>)
    ensures RunOutcomes(seq(|rows|, i requires 0 <= i < |rows| => Parsed(rows[i]))) == ParseRun(rows, false)
    decreases |rows|
  {
    if rows != [] {
      var init := rows[..|rows| - 1];
      RunOutcomesParsed(init);
      var o := seq(|rows|, i requires 0 <= i < |rows| => Parsed(rows[i]));
      assert o[..|o| - 1] == seq(|init|, i requires 0 <= i < |init| => Parsed(init[i]));
      assert init + [rows[|rows| - 1]] == rows;
    }
  }

  lemma RunOutcomesStep(outcomes: seq<LineOutcome>, k: int)
    requires 0 <= k < |outcomes|
    ensures var p := RunOutcomes(outcomes[..k]);
      RunOutcomes(outcomes[..k + 1]) ==
        if p.failed then p
        else match outcomes[k]
          case NoMatch => p
          case DateMissing => ParseRun(p.rows, true)
          case Parsed(row) => ParseRun(p.rows + [row], false)
  {
    assert outcomes[..k + 1][..k] == outcomes[..k];
  }

  /** Once the loop has died, later lines change nothing. */
  lemma {:induction false} RunOutcomesStopped(a: seq<LineOutcome>, b: seq<LineOutcome>)
    requires RunOutcomes(a).failed
    ensures RunOutcomes(a + b) == RunOutcomes(a)
    decreases |b|
  {
    if b == [] {
      assert a + b == a;
    } else {
      var b' := b[..|b| - 1];
      RunOutcomesStopped(a, b');
      assert (a + b)[..|a + b| - 1] == a + b';
    }
  }

  lemma {:induction false} RunOutcomesAppend(a: seq<LineOutcome>, b: seq<LineOutcome>)
    requires !RunOutcomes(a).failed
    ensures RunOutcomes(a + b) == ParseRun(RunOutcomes(a).rows + RunOutcomes(b).rows, RunOutcomes(b).failed)
    decreases |b|
  {
    if b == [] {
      assert a + b == a;
    } else {
      var b' := b[..|b| - 1];
      RunOutcomesAppend(a, b');
      assert (a + b)[..|a + b| - 1] == a + b';
      assert (a + b)[|a + b| - 1] == b[|b| - 1];
    }
  }

  /** Rows come out in line order: two runs of lines give the rows of each, in turn, unless the first failed. */
  lemma ParseLogAppend(a: seq<string>, b: seq<string>)
    requires !ParseLog(a).failed
    ensures ParseLog(a + b) == ParseRun(ParseLog(a).rows + ParseLog(b).rows, ParseLog(b).failed)
  {
    ClassifyAllAppend(a, b);
    RunOutcomesAppend(ClassifyAll(a), ClassifyAll(b));
  }

  lemma ClassifyAllAppend(a: seq<string>, b: seq<string>)
    ensures ClassifyAll(a + b) == ClassifyAll(a) + ClassifyAll(b)
  {
    var l, r := ClassifyAll(a + b), ClassifyAll(a) + ClassifyAll(b);
    forall i | 0 <= i < |a + b| ensures l[i] == r[i] {
      if i < |a| {
        assert (a + b)[i] == a[i];
      } else {
        assert (a + b)[i] == b[i - |a|];
      }
    }
  }

  lemma {:induction false} RunOutcomesRows(outcomes: seq<LineOutcome>)
    ensures forall r :: r in RunOutcomes(outcomes).rows ==> Parsed(r) in outcomes
    decreases |outcomes|
  {
    if outcomes != [] {
      var init := outcomes[..|outcomes| - 1];
      RunOutcomesRows(init);
      assert outcomes == init + [outcomes[|outcomes| - 1]];
    }
  }

  /** Every row comes from a matching line with a date. */
  lemma ParseLogRowsFromLines(lines: seq<string>)
    ensures forall r :: r in ParseLog(lines).rows ==> exists i :: 0 <= i < |lines| && ClassifyLine(lines[i]) == Parsed(r)
  {
    var outcomes := ClassifyAll(lines);
    RunOutcomesRows(outcomes);
    forall r | r in ParseLog(lines).rows ensures exists i :: 0 <= i < |lines| && ClassifyLine(lines[i]) == Parsed(r) {
      var i :| 0 <= i < |outcomes| && outcomes[i] == Parsed(r);
      assert ClassifyLine(lines[i]) == Parsed(r);
    }
  }

  // ----- The flag loop (lines 35-42) --------------------------------------

  /** The three settings the flags change. */
  datatype Settings = Settings(logDir: string, dbDir: string, interactive: bool)

  const DEFAULTS := Settings("/var/log", ".", false)

  /** One pass of the loop body. */
  function ApplyArg(s: Settings, arg: string): Settings {
    if StartsWith(arg, "--logdir=") then s.(logDir := arg[9..])
    else if StartsWith(arg, "--dbdir=") then s.(dbDir := arg[8..])
    else if arg == "-i" || arg == "--interactive" then s.(interactive := true)
    else s
  }

  /** The settings after the loop over `args`. */
  function ApplyArgs(s: Settings, args: seq<string>): Settings {
    if args == [] then s else ApplyArg(ApplyArgs(s, args[..|args| - 1]), args[|args| - 1])
  }

  /** No argument starts with both "--logdir=" and "--dbdir=". */
  lemma FlagsExclusive(arg: string)
    ensures !(StartsWith(arg, "--logdir=") && StartsWith(arg, "--dbdir="))
  {
    if StartsWith(arg, "--logdir=") {
      assert arg[2] == "--logdir="[2];
    }
  }

  /** What one argument does to each setting: the three flags never interfere. */
  lemma ApplyArgEffect(s: Settings, arg: string)
    ensures ApplyArg(s, arg).logDir == if StartsWith(arg, "--logdir=") then arg[9..] else s.logDir
    ensures ApplyArg(s, arg).dbDir == if StartsWith(arg, "--dbdir=") then arg[8..] else s.dbDir
    ensures ApplyArg(s, arg).interactive <==> s.interactive || arg == "-i" || arg == "--interactive"
  {
    FlagsExclusive(arg);
    if arg == "--interactive" {
      assert arg[2] == 'i';
    }
  }

  /** The log directory is the suffix of the last "--logdir=" argument, or unchanged when there is none. */
  lemma {:induction false} LastLogDirWins(s: Settings, args: seq<string>)
    ensures (forall i :: 0 <= i < |args| ==> !StartsWith(args[i], "--logdir=")) ==> ApplyArgs(s, args).logDir == s.logDir
    ensures forall i :: 0 <= i < |args| && StartsWith(args[i], "--logdir=") ==>
      (forall j :: i < j < |args| ==> !StartsWith(args[j], "--logdir=")) ==> ApplyArgs(s, args).logDir == args[i][9..]
    decreases |args|
  {
    if args != [] {
      var init := args[..|args| - 1];
      LastLogDirWins(s, init);
      ApplyArgEffect(ApplyArgs(s, init), args[|args| - 1]);
      assert forall i :: 0 <= i < |init| ==> init[i] == args[i];
    }
  }

  /** The database directory is the suffix of the last "--dbdir=" argument, or unchanged when there is none. */
  lemma {:induction false} LastDbDirWins(s: Settings, args: seq<string>)
    ensures (forall i :: 0 <= i < |args| ==> !StartsWith(args[i], "--dbdir=")) ==> ApplyArgs(s, args).dbDir == s.dbDir
    ensures forall i :: 0 <= i < |args| && StartsWith(args[i], "--dbdir=") ==>
      (forall j :: i < j < |args| ==> !StartsWith(args[j], "--dbdir=")) ==> ApplyArgs(s, args).dbDir == args[i][8..]
    decreases |args|
  {
    if args != [] {
      var init := args[..|args| - 1];
      LastDbDirWins(s, init);
      ApplyArgEffect(ApplyArgs(s, init), args[|args| - 1]);
      assert forall i :: 0 <= i < |init| ==> init[i] == args[i];
    }
  }

  /** The interactive flag is set exactly when it was already or some argument is "-i" or "--interactive". */
  lemma {:induction false} InteractiveFlag(s: Settings, args: seq<string>)
    ensures ApplyArgs(s, args).interactive <==>
      s.interactive || exists i :: 0 <= i < |args| && (args[i] == "-i" || args[i] == "--interactive")
    decreases |args|
  {
    if args != [] {
      var init := args[..|args| - 1];
      var last := args[|args| - 1];
      InteractiveFlag(s, init);
      ApplyArgEffect(ApplyArgs(s, init), last);
      assert forall i :: 0 <= i < |init| ==> init[i] == args[i];
    }
  }

  /** An argument that is none of the flags changes nothing. */
  lemma OtherArgIgnored(s: Settings, arg: string)
    requires !StartsWith(arg, "--logdir=") && !StartsWith(arg, "--dbdir=")
    requires arg != "-i" && arg != "--interactive"
    ensures ApplyArg(s, arg) == s
  {
  }

  // ----- The script's state -----------------------------------------------

  /** One line of the loop body: the regex match, then the date of line 69. */
  method Classify(line: string) returns (outcome: LineOutcome)
    ensures outcome == ClassifyLine(line)
  {
    var m := MatchLine(line);
    if m.None? {
      return NoMatch;
    }
    var date := DateOf(m.value.datetime);
    if date.None? {
      return DateMissing;
    }
    return Parsed(Row(date.value, m.value.ip, m.value.protocol, m.value.port));
  }

  /** Four equally long columns read across as rows. */
  function Zip(d: seq<string>, a: seq<string>, p: seq<string>, n: seq<string>): (rows: seq<Row>)
    requires |d| == |a| == |p| == |n|
    ensures |rows| == |d|
    ensures forall i :: 0 <= i < |d| ==> rows[i] == Row(d[i], a[i], p[i], n[i])
  {
    seq(|d|, i requires 0 <= i < |d| => Row(d[i], a[i], p[i], n[i]))
  }

  /** Appending one value to each column appends one row. */
  // A proof step only; it models nothing of its own.
  lemma ZipSnoc(d: seq<string>, a: seq<string>, p: seq<string>, n: seq<string>, row: Row)
    requires |d| == |a| == |p| == |n|
    ensures Zip(d + [row.date], a + [row.ip], p + [row.protocol], n + [row.port]) == Zip(d, a, p, n) + [row]
  {
  }

  class Analysis {
    var logDir: string
    var dbDir: string
    var interactive: bool
    var dates: seq<string>
    var ips: seq<string>
    var protocols: seq<string>
    var ports: seq<string>
    var data: seq<Row>

    /** The module-level initial values (lines 12-14 and 23-26). */
    constructor ()
      ensures Config() == DEFAULTS
      ensures dates == [] && ips == [] && protocols == [] && ports == [] && data == []
      ensures Valid()
    {
      logDir, dbDir, interactive := "/var/log", ".", false;
      dates, ips, protocols, ports := [], [], [], [];
      data := [];
    }

    function Config(): Settings
      reads this
    {
      Settings(logDir, dbDir, interactive)
    }

    /** The four column lists have the same length. */
    predicate Valid()
      reads this
    {
      |dates| == |ips| == |protocols| == |ports|
    }

    /** The rows the column lists hold, read across. */
    function Rows(): (rows: seq<Row>)
      reads this
      requires Valid()
      ensures |rows| == |dates|
    {
      Zip(dates, ips, protocols, ports)
    }

    /** The flag loop of lines 35-42. */
    method ParseArguments(args: seq<string>)
      modifies this
      ensures Config() == ApplyArgs(old(Config()), args)
      ensures dates == old(dates) && ips == old(ips) && protocols == old(protocols) && ports == old(ports)
      ensures data == old(data)
    {
      ghost var start := Config();
      for k := 0 to |args|
        invariant Config() == ApplyArgs(start, args[..k])
        invariant dates == old(dates) && ips == old(ips) && protocols == old(protocols) && ports == old(ports)
        invariant data == old(data)
      {
        assert args[..k + 1][..k] == args[..k];
        var arg := args[k];
        if StartsWith(arg, "--logdir=") {
          logDir := arg[9..];
        } else if StartsWith(arg, "--dbdir=") {
          dbDir := arg[8..];
        } else if arg == "-i" || arg == "--interactive" {
          interactive := true;
        }
      }
      assert args[..|args|] == args;
    }

    /**
     * The parse loop of lines 65-77 over the lines of the log. Each matching
     * line appends to the four lists together; any other line leaves them
     * alone. Returns false where the script dies of IndexError.
     */
    method ParseLines(lines: seq<string>) returns (ok: bool)
      requires Valid()
      modifies this
      ensures Valid()
      ensures Rows() == old(Rows()) + ParseLog(lines).rows
      ensures ok <==> !ParseLog(lines).failed
      ensures Config() == old(Config()) && data == old(data)
    {
      ghost var start := Rows();
      ghost var outcomes := ClassifyAll(lines);
      for k := 0 to |lines|
        invariant Valid()
        invariant !RunOutcomes(outcomes[..k]).failed
        invariant Rows() == start + RunOutcomes(outcomes[..k]).rows
        invariant Config() == old(Config()) && data == old(data)
      {
        RunOutcomesStep(outcomes, k);
        var outcome := Classify(lines[k]);
        assert outcomes[k] == outcome;
        match outcome
        case NoMatch =>
        case DateMissing =>
          RunOutcomesStopped(outcomes[..k + 1], outcomes[k + 1..]);
          assert outcomes[..k + 1] + outcomes[k + 1..] == outcomes;
          return false;
        case Parsed(row) =>
          AppendRow(row);
      }
      assert outcomes[..|lines|] == outcomes;
      return true;
    }

    /** Lines 73-76: one value appended to each of the four lists. */
    method AppendRow(row: Row)
      requires Valid()
      modifies this
      ensures Valid() && Rows() == old(Rows()) + [row]
      ensures Config() == old(Config()) && data == old(data)
    {
      ZipSnoc(dates, ips, protocols, ports, row);
      dates := dates + [row.date];
      ips := ips + [row.ip];
      protocols := protocols + [row.protocol];
      ports := ports + [row.port];
    }

    /** The DataFrame of line 89, holding the four columns row by row. */
    method BuildFrame()
      requires Valid()
      modifies this
      ensures Valid() && data == Rows() && Config() == old(Config())
      ensures dates == old(dates) && ips == old(ips) && protocols == old(protocols) && ports == old(ports)
    {
      data := Rows();
    }

    /** drop_duplicates(subset=["date", "ip"], inplace=True) of line 91. */
    method DropDuplicates()
      modifies this
      ensures data == Dedup(old(data))
      ensures Config() == old(Config())
      ensures dates == old(dates) && ips == old(ips) && protocols == old(protocols) && ports == old(ports)
    {
      var rows := data;
      var kept: seq<Row> := [];
      var seen: set<(string, string)> := {};
      for k := 0 to |rows|
        invariant kept == Dedup(rows[..k])
        invariant seen == KeySet(rows[..k])
      {
        assert rows[..k + 1][..k] == rows[..k];
        if Key(rows[k]) !in seen {
          kept := kept + [rows[k]];
          seen := seen + {Key(rows[k])};
        }
      }
      assert rows[..|rows|] == rows;
      data := kept;
    }
  }
}
