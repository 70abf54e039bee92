/**
 * The rest of iptrap.py: the log entry writeLog builds, what Trap.run does
 * with each accepted connection, and main: its port filter and the order in
 * which traps are started and, on shutdown, stopped before the firewall rules
 * are persisted.
 *
 * The firewall commands, the log file and the console are external calls;
 * they appear here as the calls and events the trap issues, in order.
 */
module Trap {
  import opened Wrappers
  import opened Decimal
  import opened Text
  import opened Address

  // ----- writeLog -----------------------------------------------------------

  /** The entry writeLog builds; `ts` is the clock reading formatted as "%Y-%m-%d %H:%M:%S". */
  function LogEntry(ts: string, family: string, ip: string, port: nat): string {
    "[" + ts + "] [" + family + "] Caught " + ip + " on port " + NatToString(port)
  }

  /** What writeLog appends to the log file: the entry, then a newline. */
  function LogRecord(ts: string, family: string, ip: string, port: nat): string {
    LogEntry(ts, family, ip, port) + "\n"
  }

  // ----- Trap.run -----------------------------------------------------------

  /** The two external calls a connection can cause: writeLog and banIp_firewalld. */
  datatype Call = WriteLog(family: string, ip: string, port: nat) | BanIp(ip: string, family: string)

  /**
   * Trap.run for one accepted connection, once the peer address is
   * normalised to `ip`: a loopback address is skipped, any other is logged
   * and then banned under the same address and family.
   */
  function PeerCalls(ip: string, port: nat): (calls: seq<Call>)
    ensures calls == [] <==> IsLoopback(ip)
    ensures calls != [] ==> |calls| == 2 && calls[0].WriteLog? && calls[1].BanIp?
    ensures calls != [] ==> calls[0].ip == calls[1].ip == ip && calls[0].family == calls[1].family
    ensures calls != [] ==> calls[0].port == port
    ensures calls != [] ==> (calls[0].family == "ipv4" <==> ':' !in ip)
    ensures calls != [] ==> calls[0].family == "ipv4" || calls[0].family == "ipv6"
  {
    if IsLoopback(ip) then
      []
    else
      var family := Family(ip);
      [WriteLog(family, ip, port), BanIp(ip, family)]
  }

  /**
   * Trap.run for one accepted connection from peer text `raw` on `port`: the
   * peer is normalised, a loopback peer is skipped, any other is logged and
   * then banned under the same address and family.
   */
  function HandleConnection(raw: string, port: nat): (calls: seq<Call>)
    ensures calls == [] <==> IsLoopback(Normalise(raw))
    ensures calls != [] ==> calls == [WriteLog(Family(Normalise(raw)), Normalise(raw), port), BanIp(Normalise(raw), Family(Normalise(raw)))]
  {
    PeerCalls(Normalise(raw), port)
  }

  /** The normalised addresses of a run of peers, in order. */
  function NormaliseAll(peers: seq<string>): (ips: seq<string>)
    ensures |ips| == |peers|
    ensures forall j :: 0 <= j < |peers| ==> ips[j] == Normalise(peers[j])
  {
    seq(|peers|, j requires 0 <= j < |peers| => Normalise(peers[j]))
  }

  /** The calls the accept loop makes for peers whose normalised addresses are `ips`, in order. */
  function TrapCalls(port: nat, ips: seq<string>): (calls: seq<Call>)
    ensures |calls| <= 2 * |ips| && |calls| % 2 == 0
  {
    if ips == [] then []
    else TrapCalls(port, ips[..|ips| - 1]) + PeerCalls(ips[|ips| - 1], port)
  }

  /**
   * The accept loop of Trap.run (the `while True` around lines 85-93) over the
   * peers it accepts, in order: the calls it makes.
   */
  method RunTrap(port: nat, peers: seq<string>) returns (calls: seq<Call>)
    ensures calls == TrapCalls(port, NormaliseAll(peers))
  {
    calls := [];
    ghost var ips := NormaliseAll(peers);
    for i := 0 to |peers|
      invariant calls == TrapCalls(port, ips[..i])
    {
      var ip := Normalise(peers[i]);
      assert ip == ips[i];
      TrapCallsStep(port, ips, i);
      if IsLoopback(ip) {
        assert PeerCalls(ip, port) == [];
        continue;
      }
      var family := Family(ip);
      assert PeerCalls(ip, port) == [WriteLog(family, ip, port), BanIp(ip, family)];
      calls := calls + [WriteLog(family, ip, port)];
      calls := calls + [BanIp(ip, family)];
    }
    assert ips[..|peers|] == ips;
  }

  lemma TrapCallsStep(port: nat, ips: seq<string>, i: int)
    requires 0 <= i < |ips|
    ensures TrapCalls(port, ips[..i + 1]) == TrapCalls(port, ips[..i]) + PeerCalls(ips[i], port)
  {
    assert ips[..i + 1][..i] == ips[..i];
  }

  /** The `k`-th pair of calls is a log write on `port` followed by the ban of the same non-loopback address and family. */
  predicate LogThenBan(calls: seq<Call>, k: nat, port: nat) {
    && 2 * k + 1 < |calls|
    && calls[2 * k].WriteLog?
    && calls[2 * k].port == port
    && !IsLoopback(calls[2 * k].ip)
    && calls[2 * k + 1] == BanIp(calls[2 * k].ip, calls[2 * k].family)
  }

  /**
   * Over any run of connections the calls come in pairs: a log write, then
   * the ban of the same address under the same family; no loopback address
   * is ever logged or banned.
   */
  lemma {:induction false} TrapCallsPaired(port: nat, ips: seq<string>)
    ensures |TrapCalls(port, ips)| % 2 == 0
    ensures forall k :: 0 <= k < |TrapCalls(port, ips)| / 2 ==> LogThenBan(TrapCalls(port, ips), k, port)
    decreases |ips|
  {
    if ips != [] {
      var init := ips[..|ips| - 1];
      TrapCallsPaired(port, init);
      var prev := TrapCalls(port, init);
      var step := PeerCalls(ips[|ips| - 1], port);
      var calls := prev + step;
      assert calls == TrapCalls(port, ips);
      forall k | 0 <= k < |calls| / 2 ensures LogThenBan(calls, k, port) {
        if k < |prev| / 2 {
          assert LogThenBan(prev, k, port);
          assert calls[2 * k] == prev[2 * k] && calls[2 * k + 1] == prev[2 * k + 1];
        } else {
          assert calls[2 * k] == step[0] && calls[2 * k + 1] == step[1];
        }
      }
    }
  }

  /** An address is banned exactly when it is among the normalised addresses and is not loopback. */
  lemma {:induction false} TrapCallsBans(port: nat, ips: seq<string>, ip: string)
    ensures BanIp(ip, Family(ip)) in TrapCalls(port, ips) <==> !IsLoopback(ip) && ip in ips
    decreases |ips|
  {
    if ips != [] {
      var init := ips[..|ips| - 1];
      var last := ips[|ips| - 1];
      TrapCallsBans(port, init, ip);
      var prev := TrapCalls(port, init);
      var step := PeerCalls(last, port);
      assert BanIp(ip, Family(ip)) in prev + step <==> BanIp(ip, Family(ip)) in prev || BanIp(ip, Family(ip)) in step;
      assert ips == init + [last];
    }
  }

  /** A peer address is banned exactly when some accepted peer normalises to it and it is not loopback. */
  lemma PeersBanned(port: nat, peers: seq<string>, ip: string)
    ensures BanIp(ip, Family(ip)) in TrapCalls(port, NormaliseAll(peers)) <==>
      !IsLoopback(ip) && exists j :: 0 <= j < |peers| && Normalise(peers[j]) == ip
  {
    var ips := NormaliseAll(peers);
    TrapCallsBans(port, ips, ip);
    if ip in ips {
      var j :| 0 <= j < |ips| && ips[j] == ip;
      assert Normalise(peers[j]) == ip;
    }
  }

  // ----- main: the port arguments -------------------------------------------

  /** Digits with single underscores between them: the body of a base-10 literal int() accepts. */
  predicate IsUnderscoredDigits(t: string) {
    && |t| > 0 && IsDigit(t[0])
    && (|t| == 1 || (if t[1] == '_' then IsUnderscoredDigits(t[2..]) else IsUnderscoredDigits(t[1..])))
  }

  /** Such a body begins and ends with a digit, holds only digits and underscores, and never two underscores in a row. */
  lemma {:induction false} UnderscoredDigitsShape(t: string)
    requires IsUnderscoredDigits(t)
    ensures IsDigit(t[0]) && IsDigit(t[|t| - 1])
    ensures forall i :: 0 <= i < |t| ==> IsDigit(t[i]) || t[i] == '_'
    ensures forall i :: 0 <= i < |t| - 1 ==> IsDigit(t[i]) || IsDigit(t[i + 1])
  {
    if |t| > 1 {
      var r := if t[1] == '_' then t[2..] else t[1..];
      var d := |t| - |r|;
      UnderscoredDigitsShape(r);
      assert forall i :: d <= i < |t| ==> t[i] == r[i - d];
    }
  }

  /** Conversely, text of that shape is such a body. */
  lemma {:induction false} UnderscoredDigitsOfShape(t: string)
    requires |t| > 0 && IsDigit(t[0]) && IsDigit(t[|t| - 1])
    requires forall i :: 0 <= i < |t| ==> IsDigit(t[i]) || t[i] == '_'
    requires forall i :: 0 <= i < |t| - 1 ==> IsDigit(t[i]) || IsDigit(t[i + 1])
    ensures IsUnderscoredDigits(t)
    decreases |t|
  {
    if |t| > 1 {
      var r := if t[1] == '_' then t[2..] else t[1..];
      var d := |t| - |r|;
      assert |r| > 0 && r[0] == t[d];
      assert forall i :: 0 <= i < |r| ==> r[i] == t[i + d];
      UnderscoredDigitsOfShape(r);
    }
  }

  /** A plain run of digits is such a body. */
  lemma {:induction false} DigitsAreUnderscoredDigits(s: string)
    requires |s| > 0 && AllDigits(s)
    ensures IsUnderscoredDigits(s)
  {
    if |s| > 1 {
      DigitsAreUnderscoredDigits(s[1..]);
    }
  }

  /** The value of the digits of `t`, underscores skipped. */
  function LiteralValue(t: string): nat {
    if t == [] then 0
    else if IsDigit(t[|t| - 1]) then LiteralValue(t[..|t| - 1]) * 10 + DigitValue(t[|t| - 1])
    else LiteralValue(t[..|t| - 1])
  }

  /** Without underscores, the literal's value is the plain decimal value. */
  lemma {:induction false} LiteralValueOfDigits(s: string)
    requires AllDigits(s)
    ensures LiteralValue(s) == DigitsValue(s)
  {
    if s != [] {
      LiteralValueOfDigits(s[..|s| - 1]);
    }
  }

  /** The default limit of sys.set_int_max_str_digits: int() refuses a decimal literal with more digits. */
  const MAX_STR_DIGITS: nat := 4300

  /** The digits of `t`, underscores not counted. */
  function DigitCount(t: string): (n: nat)
    ensures n <= |t|
  {
    if t == [] then 0
    else DigitCount(t[..|t| - 1]) + (if IsDigit(t[|t| - 1]) then 1 else 0)
  }

  /** In a plain run of digits every character counts. */
  lemma {:induction false} DigitCountOfDigits(s: string)
    requires AllDigits(s)
    ensures DigitCount(s) == |s|
  {
    if s != [] {
      DigitCountOfDigits(s[..|s| - 1]);
    }
  }

  /**
   * Python's int(s) on a str: optional surrounding white space (the set
   * INT_WHITESPACE, not str.isspace()'s), an optional sign, then decimal
   * digits with single underscores between them, at most MAX_STR_DIGITS of
   * them. None where int() raises ValueError.
   */
  function ParseInt(s: string): Option<int> {
    var t := Strip(s, INT_WHITESPACE);
    var signed := |t| > 0 && (t[0] == '+' || t[0] == '-');
    var body := if signed then t[1..] else t;
    if !IsUnderscoredDigits(body) || DigitCount(body) > MAX_STR_DIGITS then
      None
    else
      var v: int := LiteralValue(body);
      Some(if signed && t[0] == '-' then -v else v)
  }

  /** int() reads back every rendered natural number of at most MAX_STR_DIGITS digits, and refuses longer ones. */
  lemma ParseIntNumeral(n: nat)
    ensures ParseInt(NatToString(n)) == if |NatToString(n)| <= MAX_STR_DIGITS then Some(n) else None
  {
    var s := NatToString(n);
    StripUnpadded(s, INT_WHITESPACE);
    DigitsAreUnderscoredDigits(s);
    DigitCountOfDigits(s);
    LiteralValueOfDigits(s);
    NatToStringValue(n);
  }

  /** White space from int()'s set around a rendered number changes nothing: `int(" 80\\n") == int("80")`. */
  lemma ParseIntPadded(n: nat, c: char, d: char)
    requires c in INT_WHITESPACE && d in INT_WHITESPACE
    ensures ParseInt([c] + NatToString(n) + [d]) == ParseInt(NatToString(n))
  {
    var s := NatToString(n);
    assert IsDigit(s[0]) && IsDigit(s[|s| - 1]);
    StripPadded(s, c, d, INT_WHITESPACE);
    StripUnpadded(s, INT_WHITESPACE);
  }

  /**
   * An information separator U+001C..U+001F is not white space to int(),
   * although str.isspace() says it is: int() raises ValueError on any text
   * that begins with one, `int("\\x1c80")` included.
   */
  lemma SeparatorNotSkipped(c: char, s: string)
    requires c in {'\U{1C}', '\U{1D}', '\U{1E}', '\U{1F}'}
    ensures IsSpace(c)
    ensures ParseInt([c] + s) == None
  {
    var x := [c] + s;
    assert StripLeft(x, INT_WHITESPACE) == x;
    var t := StripRight(x, INT_WHITESPACE);
    StripRightRemoved(x, INT_WHITESPACE);
    assert |t| > 0 && t[0] == c;
  }

  /** So main drops such an argument instead of listening on a port. */
  lemma SeparatorPortDropped(c: char, s: string)
    requires c in {'\U{1C}', '\U{1D}', '\U{1E}', '\U{1F}'}
    ensures ValidPorts([[c] + s]) == []
  {
    var x := [c] + s;
    SeparatorNotSkipped(c, s);
    assert ParseAll([x]) == [None];
    assert KeptPorts([None]) == Accepted(None) + KeptPorts([]);
  }

  /** A minus sign and a rendered number carry no white space to strip. */
  lemma MinusNumeralStripped(n: nat)
    ensures Strip("-" + NatToString(n), INT_WHITESPACE) == "-" + NatToString(n)
  {
    var s := NatToString(n);
    var t := "-" + s;
    assert t[|t| - 1] == s[|s| - 1];
    StripUnpadded(t, INT_WHITESPACE);
  }

  /** int() reads a minus sign followed by digits, with nothing to strip, as the negated digit value, within the digit limit. */
  lemma ParseIntMinusDigits(t: string)
    requires |t| > 1 && t[0] == '-' && AllDigits(t[1..]) && Strip(t, INT_WHITESPACE) == t
    ensures ParseInt(t) == if |t| - 1 <= MAX_STR_DIGITS then Some(-(DigitsValue(t[1..]) as int)) else None
  {
    var body := t[1..];
    DigitsAreUnderscoredDigits(body);
    DigitCountOfDigits(body);
    LiteralValueOfDigits(body);
    var v: int := LiteralValue(body);
    if |body| <= MAX_STR_DIGITS {
      assert ParseInt(t) == Some(-v);
    } else {
      assert ParseInt(t) == None;
    }
  }

  /** int() reads "-" followed by a rendered number as its negation, within the digit limit. */
  lemma ParseIntNegative(n: nat)
    ensures ParseInt("-" + NatToString(n)) == if |NatToString(n)| <= MAX_STR_DIGITS then Some(-(n as int)) else None
  {
    var t := "-" + NatToString(n);
    MinusNumeralStripped(n);
    assert t[1..] == NatToString(n);
    ParseIntMinusDigits(t);
    NatToStringValue(n);
  }

  /** The port main keeps for one int() outcome: the value when it is positive. */
  function Accepted(parsed: Option<int>): (kept: seq<int>)
    ensures |kept| <= 1
    ensures kept != [] <==> parsed.Some? && parsed.value > 0
    ensures kept != [] ==> kept[0] == parsed.value
  {
    match parsed
    case Some(v) => if v > 0 then [v] else []
    case None => []
  }

  /** The ports main keeps from the int() outcomes of its arguments, in order. */
  function KeptPorts(parsed: seq<Option<int>>): (ports: seq<int>)
    ensures |ports| <= |parsed|
    ensures forall k :: 0 <= k < |ports| ==> ports[k] > 0
  {
    if parsed == [] then [] else Accepted(parsed[0]) + KeptPorts(parsed[1..])
  }

  /** int() applied to each argument, in order. */
  function ParseAll(args: seq<string>): (parsed: seq<Option<int>>)
    ensures |parsed| == |args|
    ensures forall i :: 0 <= i < |args| ==> parsed[i] == ParseInt(args[i])
  {
    seq(|args|, i requires 0 <= i < |args| => ParseInt(args[i]))
  }

  /** The ports main keeps from its arguments: those int() reads as a positive number, in order. */
  function ValidPorts(args: seq<string>): (ports: seq<int>)
    ensures |ports| <= |args|
    ensures forall k :: 0 <= k < |ports| ==> ports[k] > 0
  {
    KeptPorts(ParseAll(args))
  }

  lemma KeptPortsStep(parsed: seq<Option<int>>, i: int)
    requires 0 <= i < |parsed|
    ensures KeptPorts(parsed[..i + 1]) == KeptPorts(parsed[..i]) + Accepted(parsed[i])
  {
    assert parsed[..i + 1] == parsed[..i] + [parsed[i]];
    assert [parsed[i]][1..] == [];
    KeptPortsAppend(parsed[..i], [parsed[i]]);
  }

  // A proof step only (sequence concatenation is associative); it models nothing of its own.
  lemma ConcatAssoc<T>(x: seq<T>, y: seq<T>, z: seq<T>)
    ensures x + (y + z) == (x + y) + z
  {
  }

  lemma {:induction false} KeptPortsAppend(p: seq<Option<int>>, q: seq<Option<int>>)
    ensures KeptPorts(p + q) == KeptPorts(p) + KeptPorts(q)
    decreases |p|
  {
    if p == [] {
      assert p + q == q;
    } else {
      var r := p + q;
      assert r[0] == p[0] && r[1..] == p[1..] + q;
      calc {
        KeptPorts(r);
        Accepted(p[0]) + KeptPorts(p[1..] + q);
        { KeptPortsAppend(p[1..], q); }
        Accepted(p[0]) + (KeptPorts(p[1..]) + KeptPorts(q));
        { ConcatAssoc(Accepted(p[0]), KeptPorts(p[1..]), KeptPorts(q)); }
        KeptPorts(p) + KeptPorts(q);
      }
    }
  }

  /** Filtering keeps argument order: the ports of two runs of arguments are the ports of each, in turn. */
  lemma ValidPortsAppend(a: seq<string>, b: seq<string>)
    ensures ValidPorts(a + b) == ValidPorts(a) + ValidPorts(b)
  {
    assert ParseAll(a + b) == ParseAll(a) + ParseAll(b);
    KeptPortsAppend(ParseAll(a), ParseAll(b));
  }

  lemma {:induction false} KeptPortsMembers(parsed: seq<Option<int>>, p: int)
    ensures p in KeptPorts(parsed) <==> p > 0 && Some(p) in parsed
    decreases |parsed|
  {
    if parsed != [] {
      KeptPortsMembers(parsed[1..], p);
      assert parsed == [parsed[0]] + parsed[1..];
    }
  }

  /** A port is kept exactly when it is positive and some argument reads as it. */
  lemma ValidPortsMembers(args: seq<string>, p: int)
    ensures p in ValidPorts(args) <==> p > 0 && exists i :: 0 <= i < |args| && ParseInt(args[i]) == Some(p)
  {
    var parsed := ParseAll(args);
    KeptPortsMembers(parsed, p);
    if Some(p) in parsed {
      var i :| 0 <= i < |parsed| && parsed[i] == Some(p);
      assert ParseInt(args[i]) == Some(p);
    }
  }

  /**
   * There is no port-range check: every positive number int() can read,
   * 65536 and beyond included, is kept; only the digit limit of int() stops
   * a number.
   */
  lemma NoUpperBound(n: nat)
    requires n > 0
    ensures ValidPorts([NatToString(n)]) == if |NatToString(n)| <= MAX_STR_DIGITS then [n] else []
  {
    ParseIntNumeral(n);
    var parsed := ParseInt(NatToString(n));
    assert ParseAll([NatToString(n)]) == [parsed];
    assert [parsed][1..] == [];
  }

  // ----- main: start-up and shutdown ----------------------------------------

  datatype Action = Start | Stop

  /** The external actions main takes: starting or stopping the trap made `trap`-th, and apply_firewalld. */
  datatype Event = TrapEvent(action: Action, trap: nat, port: int) | PersistRules

  /** The argument loop of main (lines 103-110): int() of each argument, kept when positive. */
  method FilterPorts(args: seq<string>) returns (ports: seq<int>)
    ensures ports == ValidPorts(args)
  {
    ports := [];
    ghost var parsed := ParseAll(args);
    for i := 0 to |args|
      invariant ports == KeptPorts(parsed[..i])
    {
      var port := ParseInt(args[i]);
      KeptPortsStep(parsed, i);
      if port.Some? && port.value > 0 {
        ports := ports + [port.value];
      }
    }
    assert parsed[..|args|] == parsed;
  }

  /**
   * main's work once it has ports (lines 122-134): one trap per port is made
   * and started in order; when the idle wait ends (SIGTERM or an interrupt)
   * every trap is stopped in the order it was made, and the firewall rules
   * are persisted once, last.
   */
  method RunTraps(ports: seq<int>) returns (trace: seq<Event>)
    ensures |trace| == 2 * |ports| + 1
    ensures forall k :: 0 <= k < |ports| ==> trace[k] == TrapEvent(Start, k, ports[k])
    ensures forall k :: 0 <= k < |ports| ==> trace[|ports| + k] == TrapEvent(Stop, k, ports[k])
    ensures trace[2 * |ports|] == PersistRules
  {
    trace := [];
    var traps: seq<int> := [];
    for i := 0 to |ports|
      invariant traps == ports[..i]
      invariant |trace| == i
      invariant forall k :: 0 <= k < i ==> trace[k] == TrapEvent(Start, k, ports[k])
    {
      traps := traps + [ports[i]];
      trace := trace + [TrapEvent(Start, i, ports[i])];
    }
    assert traps == ports;

    // The idle wait ends only by SIGTERM (sys.exit in the handler) or an interrupt.
    for i := 0 to |traps|
      invariant |trace| == |ports| + i
      invariant forall k :: 0 <= k < |ports| ==> trace[k] == TrapEvent(Start, k, ports[k])
      invariant forall k :: 0 <= k < i ==> trace[|ports| + k] == TrapEvent(Stop, k, ports[k])
    {
      trace := trace + [TrapEvent(Stop, i, traps[i])];
    }
    trace := trace + [PersistRules];
  }

  /**
   * main with arguments `args`. With no valid port it exits with status 1
   * before any trap starts; otherwise it runs the traps as RunTraps says.
   */
  method RunMain(args: seq<string>) returns (status: int, trace: seq<Event>)
    ensures ValidPorts(args) == [] ==> status == 1 && trace == []
    ensures var ports := ValidPorts(args);
      ports != [] ==>
        && status == 0
        && |trace| == 2 * |ports| + 1
        && (forall k :: 0 <= k < |ports| ==> trace[k] == TrapEvent(Start, k, ports[k]))
        && (forall k :: 0 <= k < |ports| ==> trace[|ports| + k] == TrapEvent(Stop, k, ports[k]))
        && trace[2 * |ports|] == PersistRules
  {
    var ports := FilterPorts(args);
    if |ports| == 0 {
      return 1, [];
    }
    trace := RunTraps(ports);
    status := 0;
  }

  // ----- Properties ---------------------------------------------------------

  /** A mapped loopback peer, ::ffff:127.0.0.1 in any spelling, is neither logged nor banned. */
  lemma MappedLoopbackIgnored(raw: string, port: nat)
    requires Inet6Pton(raw) == Some(MAPPED_PREFIX + [127, 0, 0, 1])
    ensures HandleConnection(raw, port) == []
  {
    assert (MAPPED_PREFIX + [127, 0, 0, 1])[..12] == MAPPED_PREFIX;
    var ip := Normalise(raw);
    assert (MAPPED_PREFIX + [127, 0, 0, 1])[12..] == [127, 0, 0, 1];
    Ipv4Canonical(ip);
    LoopbackText();
  }

  /** The loopback peers 127.0.0.1, ::1 and ::ffff:127.0.0.1 reach neither writeLog nor the firewall. */
  lemma LoopbackPeersIgnored(raw: string, port: nat)
    requires raw == "127.0.0.1" || raw == "::1" || raw == "::ffff:127.0.0.1"
    ensures HandleConnection(raw, port) == []
  {
    if raw == "127.0.0.1" {
      NoColonNeverMapped(raw);
    } else if raw == "::1" {
      Ipv6LoopbackNotMapped();
    } else {
      MappedLoopbackText(port);
    }
  }

  /** The usual spelling of the mapped loopback, ::ffff:127.0.0.1, is ignored. */
  lemma MappedLoopbackText(port: nat)
    ensures HandleConnection("::ffff:127.0.0.1", port) == []
  {
    var b: seq<Byte> := [127, 0, 0, 1];
    MappedRoundTrip(b);
    MappedLoopbackIgnored("::ffff:" + FormatIpv4(b), port);
    MappedLoopbackSpelling();
  }

  /** Any other IPv4 peer reaching the dual-stack socket as ::ffff:A is logged and banned as "ipv4" under A. */
  lemma MappedPeerLogged(b: seq<Byte>, port: nat)
    requires |b| == 4 && b != [127, 0, 0, 1]
    ensures var a := FormatIpv4(b);
      HandleConnection("::ffff:" + a, port) == [WriteLog("ipv4", a, port), BanIp(a, "ipv4")]
  {
    var a := FormatIpv4(b);
    MappedRoundTrip(b);
    assert ':' !in a;
    if a == "127.0.0.1" {
      var l: seq<Byte> := [127, 0, 0, 1];
      LoopbackText();
      Ipv4RoundTrip(b);
      Ipv4RoundTrip(l);
    }
  }

  /**
   * A peer in the IPv4-compatible spelling "::" + A, such as ::1.2.3.4, is
   * not unwrapped: it is logged and banned as "ipv6" under its own text.
   */
  lemma CompatiblePeerLogged(b: seq<Byte>, port: nat)
    requires |b| == 4
    ensures var ip := "::" + FormatIpv4(b);
      HandleConnection(ip, port) == [WriteLog("ipv6", ip, port), BanIp(ip, "ipv6")]
  {
    var a := FormatIpv4(b);
    var ip := "::" + a;
    CompatibleNotMapped(b);
    CompatibleSpelling(b);
    assert ip[0] == ':' && ip != "127.0.0.1";
    assert '.' in ip && ip != "::1";
  }
}
