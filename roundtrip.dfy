/**
 * The two scripts share one line format: iptrap.py writes it (writeLog,
 * lines 33-40) and iptrap-analyze.py reads it back (lines 31 and 65-77).
 * These are the theorems joining the two models: a record the trap writes
 * matches the pattern and gives back what was written, its date is the date
 * part of the timestamp, and a whole log of such records parses to the rows
 * of those records.
 */
module RoundTrip {
  import opened Wrappers
  import opened Decimal
  import opened Text
  import opened Address
  import opened Trap
  import opened Frame
  import opened Analyze

  /** A record as writeLog writes it matches the pattern with exactly its four parts. */
  lemma RecordMatches(ts: string, family: string, ip: string, port: nat)
    requires |ts| > 0 && ']' !in ts
    requires family == "ipv4" || family == "ipv6"
    requires IsIpToken(ip)
    ensures MatchLine(LogRecord(ts, family, ip, port)) == Some(Fields(ts, family, ip, NatToString(port)))
  {
    var f := Fields(ts, family, ip, NatToString(port));
    assert LogRecord(ts, family, ip, port) == Shape(f) + "\n";
    MatchLineComplete(f, "\n");
  }

  /** The date of a "%Y-%m-%d %H:%M:%S" stamp is its date part. */
  lemma StampDate(date: string, time: string)
    requires |date| > 0 && NoSpace(date)
    ensures DateOf(date + " " + time) == Some(date)
  {
    assert date + " " + time == date + [' '] + time;
    FirstWordOfPhrase(date, ' ', time);
  }

  /** What one record of the trap turns into in the analyzer. */
  datatype Entry = Entry(date: string, time: string, family: string, ip: string, port: nat)

  /** A stamp without ']' and a date without white space, a family tag, an address the pattern accepts. */
  predicate Loggable(e: Entry) {
    && |e.date| > 0 && NoSpace(e.date) && ']' !in e.date && ']' !in e.time
    && (e.family == "ipv4" || e.family == "ipv6")
    && IsIpToken(e.ip)
  }

  /** The line writeLog appends for the entry. */
  function RecordOf(e: Entry): string {
    LogRecord(e.date + " " + e.time, e.family, e.ip, e.port)
  }

  /** The row the analyzer should keep for the entry. */
  function RowOf(e: Entry): Row {
    Row(e.date, e.ip, e.family, NatToString(e.port))
  }

  /** A loggable record becomes its row: date, address, family and the decimal port. */
  lemma RecordRow(e: Entry)
    requires Loggable(e)
    ensures ClassifyLine(RecordOf(e)) == Parsed(RowOf(e))
  {
    var ts := e.date + " " + e.time;
    assert ']' !in ts by {
      assert forall i :: 0 <= i < |ts| ==> ts[i] == (if i < |e.date| then e.date[i] else if i == |e.date| then ' ' else e.time[i - |e.date| - 1]);
    }
    RecordMatches(ts, e.family, e.ip, e.port);
    StampDate(e.date, e.time);
  }

  /** A log made of loggable records parses, without error, to their rows in order. */
  lemma LogParses(entries: seq<Entry>)
    requires forall k :: 0 <= k < |entries| ==> Loggable(entries[k])
    ensures ParseLog(seq(|entries|, k requires 0 <= k < |entries| => RecordOf(entries[k])))
      == ParseRun(seq(|entries|, k requires 0 <= k < |entries| => RowOf(entries[k])), false)
  {
    var lines := seq(|entries|, k requires 0 <= k < |entries| => RecordOf(entries[k]));
    var rows := seq(|entries|, k requires 0 <= k < |entries| => RowOf(entries[k]));
    forall k | 0 <= k < |entries| ensures ClassifyLine(lines[k]) == Parsed(rows[k]) {
      RecordRow(entries[k]);
    }
    assert ClassifyAll(lines) == seq(|rows|, i requires 0 <= i < |rows| => Parsed(rows[i]));
    RunOutcomesParsed(rows);
  }

  /** Dotted decimal is a token of the ip group. */
  lemma DottedIsIpToken(s: string)
    requires |s| > 0 && IsDottedDigits(s)
    ensures IsIpToken(s)
  {
    assert forall i :: 0 <= i < |s| ==> IsDotChar(s[i]);
  }

  /**
   * A non-loopback IPv4 peer seen as ::ffff:A on the dual-stack socket is
   * logged as "ipv4" under A, and that record reads back as the row
   * (date, A, "ipv4", port).
   */
  lemma MappedPeerRoundTrip(b: seq<Byte>, port: nat, date: string, time: string)
    requires |b| == 4 && b != [127, 0, 0, 1]
    requires |date| > 0 && NoSpace(date) && ']' !in date && ']' !in time
    ensures var a := FormatIpv4(b);
      ClassifyLine(LogRecord(date + " " + time, "ipv4", a, port)) == Parsed(Row(date, a, "ipv4", NatToString(port)))
  {
    var a := FormatIpv4(b);
    assert |a| > 0 by {
      Ipv4RoundTrip(b);
      assert Split("", '.') == [""];
    }
    DottedIsIpToken(a);
    RecordRow(Entry(date, time, "ipv4", a, port));
  }

  /** Text holding both ':' and '.' fits neither class of the ip group. */
  lemma MixedNotIpToken(ip: string)
    requires ':' in ip && '.' in ip
    ensures !IsIpToken(ip)
  {
    var i :| 0 <= i < |ip| && ip[i] == ':';
    var j :| 0 <= j < |ip| && ip[j] == '.';
    assert !IsDotChar(ip[i]) && !IsHexColonChar(ip[j]);
  }

  /** So the ip group fails on such an address, whatever follows it. */
  lemma DottedTailNotIp(ip: string, d: string)
    requires ':' in ip && '.' in ip && ' ' !in ip
    ensures MatchIp(ip + " on port " + d).None?
  {
    var c := ip + " on port " + d;
    assert c == ip + [' '] + ("on port " + d);
    TakeUntilOf(ip, ' ', "on port " + d);
    MixedNotIpToken(ip);
  }

  /** A record whose address mixes ':' and '.' is not matched, so the analyzer drops it. */
  lemma DottedTailRecordDropped(ts: string, family: string, ip: string, port: nat)
    requires |ts| > 0 && ']' !in ts && (family == "ipv4" || family == "ipv6")
    requires ':' in ip && '.' in ip && ' ' !in ip
    ensures MatchLine(LogRecord(ts, family, ip, port)).None?
    ensures ClassifyLine(LogRecord(ts, family, ip, port)) == NoMatch
  {
    var d := NatToString(port) + "\n";
    var c := ip + " on port " + d;
    var b := " [" + family + "] Caught " + c;
    assert LogRecord(ts, family, ip, port) == "[" + ts + "]" + b;
    MatchDatetimeOf(ts, b);
    MatchTagOf(family, c);
    DottedTailNotIp(ip, d);
  }

  /**
   * A peer in the IPv4-compatible spelling "::" + A, such as ::1.2.3.4, is
   * logged and banned by the trap, but the analyzer drops its record.
   */
  lemma CompatiblePeerDropped(b: seq<Byte>, port: nat, ts: string)
    requires |b| == 4 && |ts| > 0 && ']' !in ts
    ensures var ip := "::" + FormatIpv4(b);
      && HandleConnection(ip, port) == [WriteLog("ipv6", ip, port), BanIp(ip, "ipv6")]
      && ClassifyLine(LogRecord(ts, "ipv6", ip, port)) == NoMatch
  {
    var ip := "::" + FormatIpv4(b);
    CompatiblePeerLogged(b, port);
    CompatibleSpelling(b);
    DottedTailRecordDropped(ts, "ipv6", ip, port);
  }
}
